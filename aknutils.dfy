/** The helpers of `actsetl/akn/utils.py` that the LegalDocML writer
    applies to a finished act: the ordinal day of the enactment date, the
    ELI URIs of the act, the removal of `style` attributes, the
    `activeModifications` list built from the `mod` elements of the body,
    and the wrapping of a matched string in an element of its own. */
module AknUtils {
  import opened Wrappers
  import opened Text
  import opened DocTree

  // ---------------------------------------------------------------------
  // date_suffix

  /** The suffix list of `date_suffix`. */
  const Suffixes: seq<string> := ["st", "nd", "rd"]

  /** Python's `s[i]`: a negative index counts from the end, anything
      else out of range is the IndexError, here `None`. */
  function PyIndex(s: seq<string>, i: int): (r: Option<string>)
    ensures r.Some? <==> -|s| <= i < |s|
    ensures r.Some? && i >= 0 ==> r.value == s[i]
    ensures r.Some? && i < 0 ==> r.value == s[|s| + i]
  {
    if 0 <= i < |s| then Some(s[i])
    else if -|s| <= i < 0 then Some(s[|s| + i])
    else None
  }

  /** The days that take `th` in `date_suffix`. */
  predicate ThDay(day: int) {
    4 <= day <= 20 || 24 <= day <= 30
  }

  /** `date_suffix(day)`: the decimal day followed by its suffix. Outside
      the `th` days the suffix is read from the list at `day % 10 - 1`
      (Python's `%` agrees with Dafny's for the positive divisor 10); an
      index past the list is the IndexError. */
  function DateSuffix(day: int): (r: Result<string>)
    ensures r.Failure? <==> !ThDay(day) && day % 10 >= 4
    ensures r.Success? ==>
      |r.value| >= |IntToDecimal(day)| && r.value[..|IntToDecimal(day)|] == IntToDecimal(day)
      && r.value[|IntToDecimal(day)|..] in {"th", "st", "nd", "rd"}
    ensures r.Success? ==> (r.value[|IntToDecimal(day)|..] == "th" <==> ThDay(day))
  {
    if ThDay(day) then Success(IntToDecimal(day) + "th")
    else
      match PyIndex(Suffixes, day % 10 - 1)
      case None => Failure("IndexError")
      case Some(s) => Success(IntToDecimal(day) + s)
  }

  /** The English ordinal suffix of a positive number, stated on its own
      terms: `th` for the teens, otherwise by the last digit. */
  function EnglishOrdinal(n: nat): string {
    if 11 <= n % 100 <= 13 then "th"
    else if n % 10 == 1 then "st"
    else if n % 10 == 2 then "nd"
    else if n % 10 == 3 then "rd"
    else "th"
  }

  /** Every day of a month gets its English ordinal. */
  lemma DateSuffixOrdinal(day: int)
    requires 1 <= day <= 31
    ensures DateSuffix(day) == Success(IntToDecimal(day) + EnglishOrdinal(day))
  {
    if !ThDay(day) {
      assert day % 10 - 1 in {0, 1, 2};
    }
  }

  /** Outside the days of a month the result is no ordinal: day 0 reads
      the list at -1, which Python accepts as its last entry, and day 34
      reads past its end. */
  lemma DateSuffixOutside()
    ensures DateSuffix(0) == Success("0rd")
    ensures DateSuffix(34).Failure?
  {
    assert IntToDecimal(0) == "0";
    assert PyIndex(Suffixes, -1) == Some("rd");
    assert "0" + "rd" == "0rd";
  }

  // ---------------------------------------------------------------------
  // eli_uri_fragment

  /** The fields of the act metadata record that the ELI URIs use. */
  datatype ActMeta = ActMeta(number: string, year: string, status: string)

  /** The `FRBR` named tuple: work, expression and manifestation URIs. */
  datatype Frbr = Frbr(work: string, exp: string, mani: string)

  /** `eli_uri_fragment(meta, lang)`: each URI extends the one before. */
  function EliUriFragment(meta: ActMeta, lang: string): (r: Frbr)
    ensures StartsWith(r.exp, r.work + "/") && StartsWith(r.mani, r.exp + "/")
    ensures r.mani == r.exp + "/akn"
  {
    var work := "/eli/ie/oireachtas/" + meta.year + "/act/" + meta.number;
    var exp := work + "/" + meta.status + "/" + lang;
    Frbr(work, exp, exp + "/akn")
  }

  /** The components of the manifestation URI, in order. */
  function EliPath(meta: ActMeta, lang: string): seq<string> {
    ["", "eli", "ie", "oireachtas", meta.year, "act", meta.number, meta.status, lang, "akn"]
  }

  /** When no field holds a `/`, splitting the manifestation URI on `/`
      gives back year, number, status and language in their places. */
  lemma EliUriComponents(meta: ActMeta, lang: string)
    requires '/' !in meta.year && '/' !in meta.number && '/' !in meta.status && '/' !in lang
    ensures SplitOn(EliUriFragment(meta, lang).mani, '/') == EliPath(meta, lang)
  {
    var ws := EliPath(meta, lang);
    ManiJoin(meta, lang);
    assert forall k :: 0 <= k < |ws| ==> '/' !in ws[k];
    SplitOnJoin(ws, '/');
  }

  /** The manifestation URI is its pieces joined by `/`. */
  lemma ManiJoin(meta: ActMeta, lang: string)
    ensures EliUriFragment(meta, lang).mani == Join(EliPath(meta, lang), "/")
  {
    var ws := EliPath(meta, lang);
    ManiPieces(meta, lang);
    JoinStep(ws, 8);
    JoinStep(ws, 7);
    JoinStep(ws, 6);
    JoinStep(ws, 5);
    JoinStep(ws, 4);
    JoinStep(ws, 3);
    JoinStep(ws, 2);
    JoinStep(ws, 1);
    JoinStep(ws, 0);
    assert ws[0..] == ws;
  }

  /** One step of `Join` on a suffix. */
  lemma JoinStep(ws: seq<string>, k: nat)
    requires k + 1 < |ws|
    ensures Join(ws[k..], "/") == ws[k] + "/" + Join(ws[k + 1..], "/")
    ensures k + 2 == |ws| ==> Join(ws[k + 1..], "/") == ws[k + 1]
  {
    assert ws[k..][1..] == ws[k + 1..];
  }

  /** The manifestation URI as its pieces joined by `/`. */
  lemma ManiPieces(meta: ActMeta, lang: string)
    ensures EliUriFragment(meta, lang).mani
      == "" + "/" + ("eli" + "/" + ("ie" + "/" + ("oireachtas" + "/" + (meta.year + "/" + ("act" + "/"
         + (meta.number + "/" + (meta.status + "/" + (lang + "/" + "akn"))))))))
  {
    LiteralPieces();
  }

  lemma LiteralPieces()
    ensures "/eli/ie/oireachtas/" == "" + "/" + "eli" + "/" + "ie" + "/" + "oireachtas" + "/"
    ensures "/act/" == "/" + "act" + "/"
    ensures "/akn" == "/" + "akn"
  {
  }

  // ---------------------------------------------------------------------
  // pop_styles

  /** The element at the top of the tree that holds `n`: the document
      root an absolute XPath starts from. */
  function Root(d: Doc, n: nat): (r: nat)
    reads d
    requires d.Valid() && n < |d.tag|
    ensures r < |d.tag| && d.parent[r] < 0 && r in d.Chain(n)
    decreases d.top - d.rank[n]
  {
    if d.parent[n] < 0 then n else Root(d, d.parent[n])
  }

  /** The attribute maps once `style` is dropped from the elements `ns`. */
  function Unstyled(attrs: seq<map<string, string>>, ns: seq<nat>): (r: seq<map<string, string>>)
    ensures |r| == |attrs|
    ensures forall x :: 0 <= x < |r| && x in ns ==> "style" !in r[x]
    ensures forall x :: 0 <= x < |r| && x !in ns ==> r[x] == attrs[x]
    ensures forall x, k :: 0 <= x < |r| && k in r[x] ==> k in attrs[x] && r[x][k] == attrs[x][k]
    ensures forall x, k :: 0 <= x < |r| && k in attrs[x] && k != "style" ==> k in r[x]
  {
    seq(|attrs|, x requires 0 <= x < |attrs| => if x in ns then attrs[x] - {"style"} else attrs[x])
  }

  /** Dropping the styles twice is dropping them once. */
  lemma UnstyledIdempotent(attrs: seq<map<string, string>>, ns: seq<nat>)
    ensures Unstyled(Unstyled(attrs, ns), ns) == Unstyled(attrs, ns)
  {
    var once := Unstyled(attrs, ns);
    var twice := Unstyled(once, ns);
    forall x | 0 <= x < |attrs|
      ensures twice[x] == once[x]
    {
      if x in ns {
        assert twice[x] == once[x] - {"style"};
      }
    }
  }

  /** `pop_styles(akn)`: every element of the document that carries a
      `style` attribute loses it; nothing else changes. */
  method PopStyles(d: Doc, akn: nat)
    requires d.Valid() && akn < |d.tag|
    modifies d`attrs
    ensures d.Valid()
    ensures d.attrs == Unstyled(old(d.attrs), old(d.Preorder(Root(d, akn))))
  {
    var ns := d.Preorder(Root(d, akn));
    assert forall j :: 0 <= j < |ns| ==> ns[j] in ns;
    var i := 0;
    while i < |ns|
      invariant 0 <= i <= |ns| && d.Valid()
      invariant d.attrs == Unstyled(old(d.attrs), ns[..i])
      invariant forall j :: 0 <= j < |ns| ==> ns[j] < |d.tag|
    {
      assert ns[..i + 1] == ns[..i] + [ns[i]];
      if "style" in d.attrs[ns[i]] {
        d.PopAttr(ns[i], "style");
      } else {
        assert d.attrs[ns[i]] - {"style"} == d.attrs[ns[i]];
      }
      i := i + 1;
    }
    assert ns[..|ns|] == ns;
  }

  // ---------------------------------------------------------------------
  // active_mods

  /** There is a chain of children below `n` whose tags spell `path` and
      ends at `x`. */
  ghost predicate Reaches(d: Doc, n: nat, path: seq<string>, x: nat)
    reads d
    requires d.Valid() && n < |d.tag|
    decreases |path|
  {
    if path == [] then x == n
    else exists y :: y in d.kids[n] && d.tag[y] == path[0] && Reaches(d, y, path[1..], x)
  }

  /** `element.find("a/b/c")`: the children steps are followed depth first
      in document order and the first element reached is the answer. */
  function FindPath(d: Doc, n: nat, path: seq<string>): (r: Option<nat>)
    reads d
    requires d.Valid() && n < |d.tag|
    ensures r.Some? ==> r.value < |d.tag| && Reaches(d, n, path, r.value)
    ensures r.None? ==> forall x :: !Reaches(d, n, path, x)
    decreases |path|, 1
  {
    if path == [] then Some(n) else FindPathIn(d, n, d.kids[n], path)
  }

  function FindPathIn(d: Doc, n: nat, ns: seq<nat>, path: seq<string>): (r: Option<nat>)
    reads d
    requires d.Valid() && n < |d.tag| && path != []
    requires forall i :: 0 <= i < |ns| ==> ns[i] in d.kids[n]
    ensures r.Some? ==> r.value < |d.tag| && Reaches(d, n, path, r.value)
    ensures r.None? ==> forall y, x :: y in ns && d.tag[y] == path[0] ==> !Reaches(d, y, path[1..], x)
    decreases |path|, 0, |ns|
  {
    if ns == [] then None
    else
      var hit := if d.tag[ns[0]] == path[0] then FindPath(d, ns[0], path[1..]) else None;
      if hit.Some? then hit else FindPathIn(d, n, ns[1..], path)
  }

  /** The elements of `ns` tagged `t`, in their order. */
  function Tagged(d: Doc, ns: seq<nat>, t: string): (r: seq<nat>)
    reads d
    requires d.Valid() && forall i :: 0 <= i < |ns| ==> ns[i] < |d.tag|
    ensures forall x :: x in r <==> x in ns && d.tag[x] == t
    ensures Distinct(ns) ==> Distinct(r)
  {
    if ns == [] then []
    else
      var rest := Tagged(d, ns[1..], t);
      assert Distinct(ns) ==> Distinct(ns[1..]) && ns[0] !in rest by {
        if Distinct(ns) {
          forall i, j | 0 <= i < j < |ns[1..]| ensures ns[1..][i] != ns[1..][j] {
            assert ns[1..][i] == ns[i + 1] && ns[1..][j] == ns[j + 1];
          }
          assert ns[0] !in ns[1..];
        }
      }
      if d.tag[ns[0]] == t then
        assert Distinct(ns) ==> Distinct([ns[0]] + rest) by {
          if Distinct(ns) { DistinctConcat([ns[0]], rest); }
        }
        [ns[0]] + rest
      else rest
  }

  /** `x` lies strictly below one of the `body` elements among `bs`. */
  ghost predicate BelowBody(d: Doc, bs: seq<nat>, x: nat)
    reads d
    requires d.Valid() && forall i :: 0 <= i < |bs| ==> bs[i] < |d.tag|
  {
    exists j :: 0 <= j < |bs| && d.tag[bs[j]] == "body" && x in d.Preorder(bs[j])[1..]
  }

  /** Elements with one parent. */
  ghost predicate Siblings(d: Doc, ns: seq<nat>)
    reads d
    requires d.Valid() && forall i :: 0 <= i < |ns| ==> ns[i] < |d.tag|
  {
    Distinct(ns) && forall i, j :: 0 <= i < |ns| && 0 <= j < |ns| ==> d.parent[ns[i]] == d.parent[ns[j]]
  }

  /** The `mod` elements strictly below the `body` children among `bs`,
      in document order: exactly the `mod` elements below a `body` of
      `bs`, each once when `bs` are siblings. */
  function ModsInBodies(d: Doc, bs: seq<nat>): (r: seq<nat>)
    reads d
    requires d.Valid() && forall i :: 0 <= i < |bs| ==> bs[i] < |d.tag|
    ensures forall x: nat :: x in r <==> x < |d.tag| && d.tag[x] == "mod" && BelowBody(d, bs, x)
    ensures Siblings(d, bs) ==> Distinct(r)
  {
    if bs == [] then []
    else
      var rest := ModsInBodies(d, bs[1..]);
      BodiesStep(d, bs);
      if d.tag[bs[0]] == "body" then
        var below := d.Preorder(bs[0])[1..];
        BelowDistinct(d, bs, rest);
        Tagged(d, below, "mod") + rest
      else rest
  }

  /** Below the bodies of `bs`: below `bs[0]` when it is a body, or below
      the bodies of the rest; and the rest are siblings too. */
  lemma BodiesStep(d: Doc, bs: seq<nat>)
    requires d.Valid() && bs != [] && forall i :: 0 <= i < |bs| ==> bs[i] < |d.tag|
    ensures forall x :: BelowBody(d, bs, x) <==>
      (d.tag[bs[0]] == "body" && x in d.Preorder(bs[0])[1..]) || BelowBody(d, bs[1..], x)
    ensures Siblings(d, bs) ==> Siblings(d, bs[1..])
  {
    var t := bs[1..];
    forall x | BelowBody(d, t, x) ensures BelowBody(d, bs, x) {
      var j :| 0 <= j < |t| && d.tag[t[j]] == "body" && x in d.Preorder(t[j])[1..];
      assert bs[j + 1] == t[j];
    }
    forall x | BelowBody(d, bs, x) && !(d.tag[bs[0]] == "body" && x in d.Preorder(bs[0])[1..])
      ensures BelowBody(d, t, x)
    {
      var j :| 0 <= j < |bs| && d.tag[bs[j]] == "body" && x in d.Preorder(bs[j])[1..];
      assert t[j - 1] == bs[j];
    }
    if Siblings(d, bs) {
      forall i, j | 0 <= i < j < |t| ensures t[i] != t[j] {
        assert t[i] == bs[i + 1] && t[j] == bs[j + 1];
      }
      forall i, j | 0 <= i < |t| && 0 <= j < |t| ensures d.parent[t[i]] == d.parent[t[j]] {
        assert t[i] == bs[i + 1] && t[j] == bs[j + 1];
      }
    }
  }

  /** Below a body among siblings, the walk meets each element once and
      none of those below the later siblings. */
  lemma BelowDistinct(d: Doc, bs: seq<nat>, rest: seq<nat>)
    requires d.Valid() && bs != [] && forall i :: 0 <= i < |bs| ==> bs[i] < |d.tag|
    requires forall x :: x in rest ==> BelowBody(d, bs[1..], x)
    requires Siblings(d, bs) ==> Distinct(rest)
    ensures Siblings(d, bs) ==> Distinct(Tagged(d, d.Preorder(bs[0])[1..], "mod") + rest)
  {
    if Siblings(d, bs) {
      var all := d.Preorder(bs[0]);
      var below := all[1..];
      PreorderDistinct(d, bs[0]);
      assert Distinct(below) by {
        forall i, j | 0 <= i < j < |below| ensures below[i] != below[j] {
          assert below[i] == all[i + 1] && below[j] == all[j + 1];
        }
      }
      var a := Tagged(d, below, "mod");
      forall x | x in a ensures x !in rest {
        assert x in all;
        PreorderBelow(d, bs[0], x);
        if x in rest {
          var t := bs[1..];
          var j :| 0 <= j < |t| && d.tag[t[j]] == "body" && x in d.Preorder(t[j])[1..];
          assert t[j] == bs[j + 1];
          PreorderBelow(d, t[j], x);
          SiblingsApart(d, bs[0], t[j], x);
        }
      }
      DistinctConcat(a, rest);
    }
  }

  /** `x` lies strictly below a `body` child of one of the `act` elements
      among `acts`. */
  ghost predicate BelowActBody(d: Doc, acts: seq<nat>, x: nat)
    reads d
    requires d.Valid()
  {
    exists a :: 0 <= a < |acts| && acts[a] < |d.tag| && d.tag[acts[a]] == "act" && KidsInside(d, acts[a])
                && BelowBody(d, d.kids[acts[a]], x)
  }

  /** The children of `n` are elements of the arena. */
  lemma KidsIn(d: Doc, n: nat)
    requires d.Valid() && n < |d.tag|
    ensures KidsInside(d, n)
  {
    d.KidsBelow(n);
  }

  ghost predicate KidsInside(d: Doc, n: nat)
    reads d
    requires d.Valid() && n < |d.tag|
  {
    forall i :: 0 <= i < |d.kids[n]| ==> d.kids[n][i] < |d.tag|
  }

  /** The `act` children among `acts`, and the `mod` elements below their
      `body` children: exactly the `mod` elements below a `body` of an
      `act` of `acts`, each once when `acts` are siblings. */
  function ModsInActs(d: Doc, acts: seq<nat>): (r: seq<nat>)
    reads d
    requires d.Valid() && forall i :: 0 <= i < |acts| ==> acts[i] < |d.tag|
    ensures forall x: nat :: x in r <==> x < |d.tag| && d.tag[x] == "mod" && BelowActBody(d, acts, x)
    ensures Siblings(d, acts) ==> Distinct(r)
  {
    if acts == [] then []
    else
      var rest := ModsInActs(d, acts[1..]);
      KidsIn(d, acts[0]);
      ActsStep(d, acts);
      if d.tag[acts[0]] == "act" then
        var here := ModsInBodies(d, d.kids[acts[0]]);
        ActsDistinct(d, acts, here, rest);
        here + rest
      else rest
  }

  /** Below the bodies of the acts of `acts`: those of `acts[0]` when it
      is an act, or those of the rest; and the rest are siblings too. */
  lemma ActsStep(d: Doc, acts: seq<nat>)
    requires d.Valid() && acts != [] && forall i :: 0 <= i < |acts| ==> acts[i] < |d.tag|
    ensures KidsInside(d, acts[0])
    ensures forall x :: BelowActBody(d, acts, x) <==>
      (d.tag[acts[0]] == "act" && BelowBody(d, d.kids[acts[0]], x)) || BelowActBody(d, acts[1..], x)
    ensures Siblings(d, acts) ==> Siblings(d, acts[1..])
  {
    KidsIn(d, acts[0]);
    var t := acts[1..];
    forall x | BelowActBody(d, t, x) ensures BelowActBody(d, acts, x) {
      var a :| 0 <= a < |t| && t[a] < |d.tag| && d.tag[t[a]] == "act" && KidsInside(d, t[a]) && BelowBody(d, d.kids[t[a]], x);
      assert acts[a + 1] == t[a];
    }
    forall x | BelowActBody(d, acts, x) && !(d.tag[acts[0]] == "act" && BelowBody(d, d.kids[acts[0]], x))
      ensures BelowActBody(d, t, x)
    {
      var a :| 0 <= a < |acts| && acts[a] < |d.tag| && d.tag[acts[a]] == "act" && KidsInside(d, acts[a]) && BelowBody(d, d.kids[acts[a]], x);
      assert t[a - 1] == acts[a];
    }
    if Siblings(d, acts) {
      forall i, j | 0 <= i < j < |t| ensures t[i] != t[j] {
        assert t[i] == acts[i + 1] && t[j] == acts[j + 1];
      }
      forall i, j | 0 <= i < |t| && 0 <= j < |t| ensures d.parent[t[i]] == d.parent[t[j]] {
        assert t[i] == acts[i + 1] && t[j] == acts[j + 1];
      }
    }
  }

  /** The children of one element are siblings. */
  lemma KidsSiblings(d: Doc, n: nat)
    requires d.Valid() && n < |d.tag| && KidsInside(d, n)
    ensures Siblings(d, d.kids[n])
  {
    forall i | 0 <= i < |d.kids[n]| ensures d.parent[d.kids[n][i]] == n {
      LinkedKid(d.parent, d.kids, n, d.kids[n][i]);
    }
  }

  /** An element below a body of `a` has `a` above it. */
  lemma BelowBodyOf(d: Doc, a: nat, x: nat)
    requires d.Valid() && a < |d.tag| && KidsInside(d, a) && BelowBody(d, d.kids[a], x)
    ensures x < |d.tag| && a in d.Chain(x)
  {
    var ks := d.kids[a];
    var j :| 0 <= j < |ks| && d.tag[ks[j]] == "body" && x in d.Preorder(ks[j])[1..];
    assert x in d.Preorder(ks[j]);
    PreorderBelow(d, ks[j], x);
    LinkedKid(d.parent, d.kids, a, ks[j]);
    AncestorsClosed(d.parent, d.rank, d.top, x, ks[j]);
  }

  /** The mods of the first act and those of the later sibling acts are
      apart, and each list holds no element twice. */
  lemma ActsDistinct(d: Doc, acts: seq<nat>, here: seq<nat>, rest: seq<nat>)
    requires d.Valid() && acts != [] && forall i :: 0 <= i < |acts| ==> acts[i] < |d.tag|
    requires KidsInside(d, acts[0])
    requires forall x :: x in here ==> BelowBody(d, d.kids[acts[0]], x)
    requires Siblings(d, d.kids[acts[0]]) ==> Distinct(here)
    requires forall x :: x in rest ==> BelowActBody(d, acts[1..], x)
    requires Siblings(d, acts[1..]) ==> Distinct(rest)
    ensures Siblings(d, acts) ==> Distinct(here + rest)
  {
    if Siblings(d, acts) {
      KidsSiblings(d, acts[0]);
      ActsStep(d, acts);
      forall x | x in here ensures x !in rest {
        BelowBodyOf(d, acts[0], x);
        if x in rest {
          var t := acts[1..];
          var a :| 0 <= a < |t| && t[a] < |d.tag| && d.tag[t[a]] == "act" && KidsInside(d, t[a]) && BelowBody(d, d.kids[t[a]], x);
          assert t[a] == acts[a + 1];
          BelowBodyOf(d, t[a], x);
          SiblingsApart(d, acts[0], t[a], x);
        }
      }
      DistinctConcat(here, rest);
    }
  }

  /** `akn.xpath("./act/body//mod")`: every `mod` element strictly below a
      `body` child of an `act` child of `akn`, in document order, each
      once. */
  function Mods(d: Doc, akn: nat): (r: seq<nat>)
    reads d
    requires d.Valid() && akn < |d.tag|
    ensures forall x: nat :: x in r <==> x < |d.tag| && d.tag[x] == "mod" && BelowActBody(d, d.kids[akn], x)
    ensures forall i :: 0 <= i < |r| ==> r[i] < |d.tag|
    ensures Distinct(r)
  {
    KidsIn(d, akn);
    KidsSiblings(d, akn);
    var r := ModsInActs(d, d.kids[akn]);
    assert forall i :: 0 <= i < |r| ==> r[i] in r;
    r
  }

  const ListPath: seq<string> := ["act", "meta", "analysis", "activeModifications"]
  const AnalysisPath: seq<string> := ["act", "meta", "analysis"]

  /** A `textualMod` element recording a substitution made by the
      element with eId `eid`: a `source` child pointing at `#eid` and a
      `destination` child pointing at `/`. */
  predicate Recorded(tag: seq<string>, attrs: seq<map<string, string>>, kids: seq<seq<nat>>, t: nat, eid: string) {
    t < |tag| && t < |attrs| && t < |kids| && |kids[t]| == 2
    && tag[t] == "textualMod" && attrs[t] == map["type" := "substitution"]
    && kids[t][0] < |tag| && kids[t][0] < |attrs| && kids[t][1] < |tag| && kids[t][1] < |attrs|
    && tag[kids[t][0]] == "source" && attrs[kids[t][0]] == map["href" := "#" + eid]
    && tag[kids[t][1]] == "destination" && attrs[kids[t][1]] == map["href" := "/"]
  }

  /** `E.<t>(k=v)`: a fresh element with one attribute. */
  method NewLeaf(d: Doc, t: string, k: string, v: string) returns (n: nat)
    requires d.Valid()
    modifies d
    ensures d.Valid() && n == old(|d.tag|)
    ensures d.tag == old(d.tag) + [t] && d.attrs == old(d.attrs) + [map[k := v]]
    ensures d.text == old(d.text) + [None] && d.tail == old(d.tail) + [None]
    ensures d.parent == old(d.parent) + [-1] && d.kids == old(d.kids) + [[]]
  {
    n := d.NewElement(t);
    d.SetAttr(n, k, v);
  }

  /** `E.textualMod(E.source(href=...), E.destination(href="/"),
      type="substitution")`: three fresh elements. */
  method NewTextualMod(d: Doc, eid: string) returns (t: nat)
    requires d.Valid()
    modifies d
    ensures d.Valid() && t < |d.tag| && Recorded(d.tag, d.attrs, d.kids, t, eid) && d.parent[t] == -1
    ensures |d.tag| == old(|d.tag|) + 3 && old(|d.tag|) <= t
    ensures forall x :: 0 <= x < old(|d.tag|) ==>
      d.tag[x] == old(d.tag[x]) && d.attrs[x] == old(d.attrs[x]) && d.kids[x] == old(d.kids[x])
      && d.parent[x] == old(d.parent[x]) && d.text[x] == old(d.text[x]) && d.tail[x] == old(d.tail[x])
  {
    t := NewLeaf(d, "textualMod", "type", "substitution");
    var src := NewLeaf(d, "source", "href", "#" + eid);
    var dst := NewLeaf(d, "destination", "href", "/");
    AttachLeaves(d, t, src, dst);
  }

  /** Puts the two fresh leaves `src` and `dst` under the fresh `t`. */
  method AttachLeaves(d: Doc, t: nat, src: nat, dst: nat)
    requires d.Valid() && t + 2 == src + 1 == dst == |d.tag| - 1
    requires d.kids[t] == [] && d.kids[src] == [] && d.kids[dst] == []
    requires d.parent[t] == -1 && d.parent[src] == -1 && d.parent[dst] == -1
    modifies d`parent, d`kids, d`rank, d`top
    ensures d.Valid() && d.kids == old(d.kids)[t := [src, dst]]
    ensures d.parent == old(d.parent)[src := t][dst := t]
  {
    ghost var k0 := d.kids;
    d.ChildlessAbove(t, src);
    AppendOrphan(d, t, src);
    assert k0[t] + [src] == [src];
    ghost var k1 := d.kids;
    assert k1 == k0[t := [src]];
    d.ChildlessAbove(t, dst);
    AppendOrphan(d, t, dst);
    assert k1[t] + [dst] == [src, dst];
    assert d.kids == k1[t := [src, dst]];
  }

  /** When the elements below `k` have parents below `k`, so have the
      ancestors of an element below `k`. */
  lemma {:induction false} ChainWithin(d: Doc, x: nat, k: nat)
    requires d.Valid() && x < k <= |d.tag|
    requires forall y :: 0 <= y < k ==> d.parent[y] < k
    ensures forall z :: z in d.Chain(x) ==> z < k
    decreases d.top - d.rank[x]
  {
    if d.parent[x] >= 0 {
      assert d.Chain(x) == {x} + d.Chain(d.parent[x]);
      ChainWithin(d, d.parent[x], k);
    } else {
      assert d.Chain(x) == {x};
    }
  }

  /** One turn of the loop of `active_mods` once the eId of the `mod`
      element has been read: the `textualMod` for it, appended to the
      list `l`. */
  method RecordMod(d: Doc, l: nat, eid: string) returns (t: nat)
    requires d.Valid() && l < |d.tag|
    modifies d
    ensures d.Valid() && old(|d.tag|) <= t < |d.tag|
    ensures forall x :: 0 <= x < old(|d.tag|) ==> d.tag[x] == old(d.tag[x])
    ensures forall x :: 0 <= x < old(|d.tag|) ==> d.attrs[x] == old(d.attrs[x])
    ensures forall x :: 0 <= x < old(|d.tag|) ==> d.text[x] == old(d.text[x]) && d.tail[x] == old(d.tail[x])
    ensures forall x :: 0 <= x < old(|d.tag|) && x != l ==> d.kids[x] == old(d.kids[x])
    ensures Recorded(d.tag, d.attrs, d.kids, t, eid) && d.kids[l] == old(d.kids[l]) + [t]
  {
    ghost var n0 := |d.tag|;
    t := NewTextualMod(d, eid);
    ChainWithin(d, l, n0);
    AppendOrphan(d, l, t);
  }

  /** The removal of `active_mods` when the body holds no `mod`. */
  method RemoveList(d: Doc, an: Option<nat>, list: Option<nat>) returns (r: Result<seq<nat>>)
    requires d.Valid() && (an.Some? ==> an.value < |d.tag|) && (list.Some? ==> list.value < |d.tag|)
    modifies d`parent, d`kids
    ensures d.Valid()
    ensures an.None? ==> r == Failure("AttributeError")
    ensures an.Some? && list.None? ==> r == Failure("TypeError")
    ensures an.Some? && list.Some? ==>
      (r.Success? <==> old(d.parent[list.value]) == an.value) && (r.Failure? ==> r.error == "ValueError")
    ensures r.Success? ==>
      r.value == [] && d.parent == old(d.parent)[list.value := -1]
      && d.kids == old(d.kids)[an.value := Without(old(d.kids[an.value]), list.value)]
    ensures r.Failure? ==> d.parent == old(d.parent) && d.kids == old(d.kids)
  {
    if an.None? {
      return Failure("AttributeError");
    }
    if list.None? {
      return Failure("TypeError");
    }
    var ok := d.Remove(an.value, list.value);
    if !ok {
      return Failure("ValueError");
    }
    return Success([]);
  }

  function EIdOf(a: map<string, string>): string {
    if "eId" in a then a["eId"] else ""
  }

  /** The loop of `active_mods` over the `mod` elements `ms`. Building
      the first `textualMod` reads the eId of the first `mod` (KeyError)
      before a missing list is used (AttributeError). */
  method RecordAll(d: Doc, list: Option<nat>, ms: seq<nat>) returns (r: Result<seq<nat>>)
    requires d.Valid() && ms != [] && (list.Some? ==> list.value < |d.tag|)
    requires forall k :: 0 <= k < |ms| ==> ms[k] < |d.tag|
    modifies d
    ensures d.Valid() && old(|d.tag|) <= |d.tag|
    ensures forall x :: 0 <= x < old(|d.tag|) ==>
      d.tag[x] == old(d.tag[x]) && d.attrs[x] == old(d.attrs[x]) && d.text[x] == old(d.text[x]) && d.tail[x] == old(d.tail[x])
    ensures r.Success? <==> list.Some? && forall k :: 0 <= k < |ms| ==> "eId" in old(d.attrs[ms[k]])
    ensures list.None? ==> r == Failure(if "eId" in old(d.attrs[ms[0]]) then "AttributeError" else "KeyError")
    ensures list.Some? && r.Failure? ==> r.error == "KeyError"
    ensures r.Success? ==>
      |r.value| == |ms| && d.kids[list.value] == old(d.kids[list.value]) + r.value
      && (forall x :: 0 <= x < old(|d.tag|) && x != list.value ==> d.kids[x] == old(d.kids[x]))
      && forall k :: 0 <= k < |ms| ==> Recorded(d.tag, d.attrs, d.kids, r.value[k], old(d.attrs[ms[k]]["eId"]))
  {
    if list.None? {
      var eid := d.Attr(ms[0], "eId");
      if eid.None? {
        return Failure("KeyError");
      }
      var _ := NewTextualMod(d, eid.value);
      return Failure("AttributeError");
    }
    r := RecordInto(d, list.value, ms);
  }

  /** The loop of `active_mods` with the list `l` present. */
  method RecordInto(d: Doc, l: nat, ms: seq<nat>) returns (r: Result<seq<nat>>)
    requires d.Valid() && l < |d.tag|
    requires forall k :: 0 <= k < |ms| ==> ms[k] < |d.tag|
    modifies d
    ensures d.Valid() && old(|d.tag|) <= |d.tag|
    ensures forall x :: 0 <= x < old(|d.tag|) ==>
      d.tag[x] == old(d.tag[x]) && d.attrs[x] == old(d.attrs[x]) && d.text[x] == old(d.text[x]) && d.tail[x] == old(d.tail[x])
    ensures r.Success? <==> forall k :: 0 <= k < |ms| ==> "eId" in old(d.attrs[ms[k]])
    ensures r.Failure? ==> r.error == "KeyError"
    ensures r.Success? ==>
      |r.value| == |ms| && d.kids[l] == old(d.kids[l]) + r.value
      && (forall x :: 0 <= x < old(|d.tag|) && x != l ==> d.kids[x] == old(d.kids[x]))
      && forall k :: 0 <= k < |ms| ==> Recorded(d.tag, d.attrs, d.kids, r.value[k], old(d.attrs[ms[k]]["eId"]))
  {
    ghost var t0, a0, x0, l0, k0 := d.tag, d.attrs, d.text, d.tail, d.kids;
    ghost var n0 := |d.tag|;
    ghost var es := seq(|ms|, k requires 0 <= k < |ms| => EIdOf(a0[ms[k]]));
    var ts: seq<nat> := [];
    var i := 0;
    while i < |ms|
      invariant 0 <= i <= |ms| && |ts| == i
      invariant d.Valid() && n0 <= |d.tag|
      invariant forall x :: 0 <= x < n0 ==> d.tag[x] == t0[x]
      invariant forall x :: 0 <= x < n0 ==> d.attrs[x] == a0[x]
      invariant forall x :: 0 <= x < n0 ==> d.text[x] == x0[x] && d.tail[x] == l0[x]
      invariant forall x :: 0 <= x < n0 && x != l ==> d.kids[x] == k0[x]
      invariant d.kids[l] == k0[l] + ts
      invariant forall k :: 0 <= k < i ==> "eId" in a0[ms[k]]
      invariant forall k :: 0 <= k < i ==> n0 <= ts[k] < |d.tag| && Recorded(d.tag, d.attrs, d.kids, ts[k], es[k])
    {
      var eid := d.Attr(ms[i], "eId");
      if eid.None? {
        return Failure("KeyError");
      }
      assert es[i] == eid.value;
      ghost var t1, a1, k1 := d.tag, d.attrs, d.kids;
      var t := RecordMod(d, l, eid.value);
      KeepRecords(t1, a1, k1, d.tag, d.attrs, d.kids, ts, es, n0, l);
      ts := ts + [t];
      i := i + 1;
    }
    return Success(ts);
  }

  /** `active_mods(akn)`. With no `mod` element in the body, the list the
      path finds is removed from the `analysis` element the shorter path
      finds (`RemoveList`); otherwise one `textualMod` per `mod`, in
      document order, is appended to the list (`RecordAll`), and the new
      `textualMod` elements are the result. */
  method ActiveMods(d: Doc, akn: nat) returns (r: Result<seq<nat>>, ghost mods: seq<nat>, ghost list: Option<nat>, ghost an: Option<nat>)
    requires d.Valid() && akn < |d.tag|
    modifies d
    ensures d.Valid() && old(|d.tag|) <= |d.tag|
    ensures mods == old(Mods(d, akn)) && list == old(FindPath(d, akn, ListPath))
    ensures an == old(FindPath(d, akn, AnalysisPath))
    ensures forall k :: 0 <= k < |mods| ==> mods[k] < old(|d.tag|)
    ensures forall x :: 0 <= x < old(|d.tag|) ==>
      d.tag[x] == old(d.tag[x]) && d.attrs[x] == old(d.attrs[x]) && d.text[x] == old(d.text[x]) && d.tail[x] == old(d.tail[x])
    ensures mods == [] && an.None? ==> r == Failure("AttributeError")
    ensures mods == [] && an.Some? && list.None? ==> r == Failure("TypeError")
    ensures mods == [] && an.Some? && list.Some? ==>
      (r.Success? <==> old(d.parent[list.value]) == an.value) && (r.Failure? ==> r.error == "ValueError")
    ensures mods == [] && r.Success? ==>
      r.value == [] && d.parent == old(d.parent)[list.value := -1]
      && d.kids == old(d.kids)[an.value := Without(old(d.kids[an.value]), list.value)]
    ensures mods != [] ==>
      (r.Success? <==> list.Some? && forall k :: 0 <= k < |mods| ==> "eId" in old(d.attrs[mods[k]]))
    ensures mods != [] && list.None? ==> r == Failure(if "eId" in old(d.attrs[mods[0]]) then "AttributeError" else "KeyError")
    ensures mods != [] && list.Some? && r.Failure? ==> r.error == "KeyError"
    ensures mods != [] && r.Success? ==>
      |r.value| == |mods| && d.kids[list.value] == old(d.kids[list.value]) + r.value
      && (forall x :: 0 <= x < old(|d.tag|) && x != list.value ==> d.kids[x] == old(d.kids[x]))
      && forall k :: 0 <= k < |mods| ==> Recorded(d.tag, d.attrs, d.kids, r.value[k], old(d.attrs[mods[k]]["eId"]))
  {
    var l := FindPath(d, akn, ListPath);
    var a := FindPath(d, akn, AnalysisPath);
    var ms := Mods(d, akn);
    mods, list, an := ms, l, a;
    if |ms| == 0 {
      r := RemoveList(d, a, l);
    } else {
      r := RecordAll(d, l, ms);
    }
  }

  /** Records kept in place: the elements they consist of are unchanged. */
  lemma KeepRecords(t1: seq<string>, a1: seq<map<string, string>>, k1: seq<seq<nat>>,
                    t2: seq<string>, a2: seq<map<string, string>>, k2: seq<seq<nat>>,
                    ts: seq<nat>, es: seq<string>, n0: nat, l: nat)
    requires |ts| <= |es| && l < n0 && |t1| <= |t2| && |t1| <= |a2| && |t1| <= |k2| && |t1| <= |a1| && |t1| <= |k1|
    requires forall k :: 0 <= k < |ts| ==> n0 <= ts[k] < |t1| && Recorded(t1, a1, k1, ts[k], es[k])
    requires forall x :: 0 <= x < |t1| ==> t2[x] == t1[x] && a2[x] == a1[x]
    requires forall x :: 0 <= x < |t1| && x != l ==> k2[x] == k1[x]
    ensures forall k :: 0 <= k < |ts| ==> Recorded(t2, a2, k2, ts[k], es[k])
  {
  }
}
