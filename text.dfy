/** Character classes and string helpers with the meaning Python gives them.
    White space is Python's full set; `\d`, `\w`, `str.isalnum` and
    `str.lower` only look at ASCII characters here. */
module Text {
  import opened Wrappers

  /** The characters for which `str.isspace()` holds, which is also what
      `\s`, `str.strip()` and `str.split()` treat as white space: the ASCII
      ones, the next-line and no-break spaces, and the Unicode spaces and
      line and paragraph separators. */
  predicate IsSpace(c: char) {
    c == ' ' || ('\t' <= c <= '\r') || ('\U{1C}' <= c <= '\U{1F}')
    || c == '\U{85}' || c == '\U{A0}' || c == '\U{1680}' || ('\U{2000}' <= c <= '\U{200A}')
    || c == '\U{2028}' || c == '\U{2029}' || c == '\U{202F}' || c == '\U{205F}' || c == '\U{3000}'
  }

  predicate IsDigit(c: char) { '0' <= c <= '9' }
  predicate IsLower(c: char) { 'a' <= c <= 'z' }
  predicate IsUpper(c: char) { 'A' <= c <= 'Z' }
  predicate IsAlnum(c: char) { IsDigit(c) || IsLower(c) || IsUpper(c) }
  /** `\w` */
  predicate IsWordChar(c: char) { IsAlnum(c) || c == '_' }

  /** A class of characters that the hand-written scanners run over. */
  datatype CharClass = Digit | LowerRun | Upper | Roman | Word | NotQuote

  /** The straight quote characters of the quote classes `["'"']` and of
      `quote_chars`. */
  const QuoteChars: set<char> := {'"', '\''}

  predicate InClass(c: char, k: CharClass) {
    match k
    case Digit => IsDigit(c)
    case LowerRun => IsLower(c)
    case Upper => IsUpper(c)
    case Roman => c == 'I' || c == 'V' || c == 'X'
    case Word => IsWordChar(c)
    case NotQuote => c !in QuoteChars
  }

  /** The end of the longest run of class `k` that starts at `i`. */
  function RunEnd(s: string, i: nat, k: CharClass): (j: nat)
    requires i <= |s|
    ensures i <= j <= |s|
    ensures forall m :: i <= m < j ==> InClass(s[m], k)
    ensures j < |s| ==> !InClass(s[j], k)
    decreases |s| - i
  {
    if i == |s| || !InClass(s[i], k) then i else RunEnd(s, i + 1, k)
  }

  /** A slice of a slice is a slice of the original. */
  lemma SliceSlice<T>(s: seq<T>, a: nat, b: nat, i: nat, j: nat)
    requires a <= b <= |s| && i <= j <= b - a
    ensures s[a..b][i..j] == s[a + i..a + j]
  {
    var l, r := s[a..b][i..j], s[a + i..a + j];
    forall m | 0 <= m < |l| ensures l[m] == r[m] {
      assert l[m] == s[a..b][i + m];
    }
  }

  /** Any run of class `k` starting at `i` ends exactly at `RunEnd`. */
  lemma RunEndUnique(s: string, i: nat, k: CharClass, j: nat)
    requires i <= j <= |s|
    requires forall m :: i <= m < j ==> InClass(s[m], k)
    requires j < |s| ==> !InClass(s[j], k)
    ensures RunEnd(s, i, k) == j
  {
  }

  function LowerChar(c: char): char {
    if IsUpper(c) then (c as int + 32) as char else c
  }

  /** `str.lower()` on ASCII letters. */
  function Lower(s: string): (r: string)
    ensures |r| == |s|
    ensures forall i :: 0 <= i < |s| ==> r[i] == LowerChar(s[i])
  {
    if s == [] then [] else [LowerChar(s[0])] + Lower(s[1..])
  }

  predicate StartsWith(s: string, p: string) {
    |p| <= |s| && s[..|p|] == p
  }

  predicate EndsWith(s: string, p: string) {
    |p| <= |s| && s[|s| - |p|..] == p
  }

  /** Pieces without the separator, joined by it, split back into the
      same pieces. */
  lemma {:induction false} SplitOnJoin(ws: seq<string>, sep: char)
    requires ws != [] && forall k :: 0 <= k < |ws| ==> sep !in ws[k]
    ensures SplitOn(Join(ws, [sep]), sep) == ws
    decreases |ws|
  {
    var w := ws[0];
    if |ws| == 1 {
    } else {
      var rest := Join(ws[1..], [sep]);
      var s := w + [sep] + rest;
      assert Join(ws, [sep]) == s;
      var k := SepEnd(s, 0, sep);
      assert s[|w|] == sep;
      assert k == |w|;
      assert s[..k] == w;
      assert s[k + 1..] == rest;
      SplitOnJoin(ws[1..], sep);
    }
  }

  /** `p` occurs in `s` at position `i`. */
  predicate At(s: string, i: nat, p: string) {
    i + |p| <= |s| && s[i..i + |p|] == p
  }

  /** `p` occurs in `s` at position `i` when ASCII case is ignored; `p` is
      given in lower case. */
  predicate AtFolded(s: string, i: nat, p: string) {
    i + |p| <= |s| && Lower(s[i..i + |p|]) == p
  }

  /** `str.find`, with `None` for -1. */
  function Find(s: string, p: string): (r: Option<nat>)
    ensures r.Some? ==> At(s, r.value, p) && forall j :: 0 <= j < r.value ==> !At(s, j, p)
    ensures r.None? ==> forall j :: 0 <= j <= |s| ==> !At(s, j, p)
  {
    FindFrom(s, p, 0)
  }

  function FindFrom(s: string, p: string, i: nat): (r: Option<nat>)
    requires i <= |s|
    ensures r.Some? ==> i <= r.value && At(s, r.value, p)
    ensures r.Some? ==> forall j :: i <= j < r.value ==> !At(s, j, p)
    ensures r.None? ==> forall j :: i <= j <= |s| ==> !At(s, j, p)
    decreases |s| - i
  {
    if At(s, i, p) then Some(i)
    else if i == |s| then None
    else FindFrom(s, p, i + 1)
  }

  /** `p in s` for strings. */
  predicate Contains(s: string, p: string) {
    Find(s, p).Some?
  }

  /** `str.lstrip(chars)` */
  function LStripSet(s: string, cs: set<char>): (r: string)
    ensures |r| <= |s| && r == s[|s| - |r|..]
    ensures r != [] ==> r[0] !in cs
    ensures forall i :: 0 <= i < |s| - |r| ==> s[i] in cs
  {
    if s != [] && s[0] in cs then LStripSet(s[1..], cs) else s
  }

  /** `str.rstrip(chars)` */
  function RStripSet(s: string, cs: set<char>): (r: string)
    ensures |r| <= |s| && r == s[..|r|]
    ensures r != [] ==> r[|r| - 1] !in cs
    ensures forall i :: |r| <= i < |s| ==> s[i] in cs
  {
    if s != [] && s[|s| - 1] in cs then RStripSet(s[..|s| - 1], cs) else s
  }

  /** `str.strip(chars)` */
  function StripSet(s: string, cs: set<char>): (r: string)
    ensures |r| <= |s|
    ensures r != [] ==> r[0] !in cs && r[|r| - 1] !in cs
    ensures r == [] <==> forall i :: 0 <= i < |s| ==> s[i] in cs
  {
    var l := LStripSet(s, cs);
    var r := RStripSet(l, cs);
    assert r != [] ==> r[0] == l[0];
    assert l != [] ==> r != [] by {
      if l != [] { assert l[0] !in cs; }
    }
    assert l == [] ==> forall i :: 0 <= i < |s| ==> s[i] in cs;
    r
  }

  /** `str.lstrip()` */
  function LStrip(s: string): (r: string)
    ensures |r| <= |s| && r == s[|s| - |r|..]
    ensures r != [] ==> !IsSpace(r[0])
    ensures forall i :: 0 <= i < |s| - |r| ==> IsSpace(s[i])
  {
    if s != [] && IsSpace(s[0]) then LStrip(s[1..]) else s
  }

  /** `str.rstrip()` */
  function RStrip(s: string): (r: string)
    ensures |r| <= |s| && r == s[..|r|]
    ensures r != [] ==> !IsSpace(r[|r| - 1])
    ensures forall i :: |r| <= i < |s| ==> IsSpace(s[i])
  {
    if s != [] && IsSpace(s[|s| - 1]) then RStrip(s[..|s| - 1]) else s
  }

  /** `str.strip()` */
  function Strip(s: string): string {
    RStrip(LStrip(s))
  }

  /** The index of the first white-space character at or after `i`. */
  function TokenEnd(s: string, i: nat): (j: nat)
    requires i <= |s|
    ensures i <= j <= |s|
    ensures forall m :: i <= m < j ==> !IsSpace(s[m])
    ensures j < |s| ==> IsSpace(s[j])
    decreases |s| - i
  {
    if i == |s| || IsSpace(s[i]) then i else TokenEnd(s, i + 1)
  }

  /** `str.split()` with no separator: the maximal runs of non-space
      characters, in order. */
  function SplitWs(s: string): (r: seq<string>)
    ensures forall i :: 0 <= i < |r| ==> IsToken(r[i])
    decreases |s|
  {
    if s == [] then []
    else if IsSpace(s[0]) then SplitWs(s[1..])
    else
      var k := TokenEnd(s, 0);
      TokenPrefix(s, k);
      [s[..k]] + SplitWs(s[k..])
  }

  /** A non-empty prefix without white space is a token. */
  lemma TokenPrefix(s: string, k: nat)
    requires 0 < k <= |s|
    requires forall m :: 0 <= m < k ==> !IsSpace(s[m])
    ensures IsToken(s[..k])
  {
    forall m | 0 <= m < k
      ensures !IsSpace(s[..k][m])
    {
      assert s[..k][m] == s[m];
    }
  }

  /** Any token run starting at `i` ends exactly at `TokenEnd`. */
  lemma TokenEndUnique(s: string, i: nat, j: nat)
    requires i <= j <= |s|
    requires forall m :: i <= m < j ==> !IsSpace(s[m])
    requires j < |s| ==> IsSpace(s[j])
    ensures TokenEnd(s, i) == j
  {
  }

  /** Leading white space does not change the split. */
  lemma SplitWsSpace(c: char, s: string)
    requires IsSpace(c)
    ensures SplitWs([c] + s) == SplitWs(s)
  {
    assert ([c] + s)[1..] == s;
  }

  /** A string that starts with a token of length `k` splits into that
      token and the split of the rest. */
  lemma SplitWsHead(t: string, k: nat)
    requires 0 < k <= |t| && IsToken(t[..k])
    requires k < |t| ==> IsSpace(t[k])
    ensures SplitWs(t) == [t[..k]] + SplitWs(t[k..])
  {
    assert t[0] == t[..k][0];
    forall m | 0 <= m < k
      ensures !IsSpace(t[m])
    {
      assert t[m] == t[..k][m];
    }
    TokenEndUnique(t, 0, k);
  }

  /** A lone token splits into itself. */
  lemma SplitWsSingle(w: string)
    requires IsToken(w)
    ensures SplitWs(w) == [w]
  {
    assert w[..|w|] == w;
    SplitWsHead(w, |w|);
    assert w[|w|..] == [];
  }

  /** A token followed by a blank is the first piece of the split. */
  lemma SplitWsToken(w: string, s: string)
    requires IsToken(w)
    ensures SplitWs(w + " " + s) == [w] + SplitWs(s)
  {
    var t := w + " " + s;
    assert t[..|w|] == w;
    SplitWsHead(t, |w|);
    assert t[|w|..] == [' '] + s;
    SplitWsSpace(' ', s);
  }

  /** Tokens joined by single blanks split back into the same tokens. */
  lemma {:induction false} SplitJoin(ws: seq<string>)
    requires forall i :: 0 <= i < |ws| ==> IsToken(ws[i])
    ensures SplitWs(Join(ws, " ")) == ws
  {
    if |ws| == 1 {
      SplitWsSingle(ws[0]);
    } else if |ws| > 1 {
      SplitJoin(ws[1..]);
      SplitWsToken(ws[0], Join(ws[1..], " "));
    }
  }

  /** A non-empty run of non-space characters. */
  predicate IsToken(w: string) {
    w != [] && forall m :: 0 <= m < |w| ==> !IsSpace(w[m])
  }

  /** The index of the first `sep` at or after `i`. */
  function SepEnd(s: string, i: nat, sep: char): (j: nat)
    requires i <= |s|
    ensures i <= j <= |s|
    ensures forall m :: i <= m < j ==> s[m] != sep
    ensures j < |s| ==> s[j] == sep
    decreases |s| - i
  {
    if i == |s| || s[i] == sep then i else SepEnd(s, i + 1, sep)
  }

  /** `str.split(sep)` for a one-character separator: empty pieces are
      kept, so there is always one more piece than separators. */
  function SplitOn(s: string, sep: char): (r: seq<string>)
    ensures |r| >= 1
    ensures forall w :: w in r ==> sep !in w
    decreases |s|
  {
    var k := SepEnd(s, 0, sep);
    if k == |s| then [s] else [s[..k]] + SplitOn(s[k + 1..], sep)
  }

  /** `sep.join(parts)` */
  function Join(parts: seq<string>, sep: string): string {
    if parts == [] then []
    else if |parts| == 1 then parts[0]
    else parts[0] + sep + Join(parts[1..], sep)
  }

  /** Joining the pieces of a split gives back the string. */
  lemma {:induction false} JoinSplitOn(s: string, sep: char)
    ensures Join(SplitOn(s, sep), [sep]) == s
    decreases |s|
  {
    var k := SepEnd(s, 0, sep);
    if k < |s| {
      var rest := s[k + 1..];
      assert s[k..] == [sep] + rest;
      assert s == s[..k] + s[k..];
      JoinSplitOn(rest, sep);
      var r := SplitOn(rest, sep);
      assert SplitOn(s, sep) == [s[..k]] + r;
      JoinCons(s[..k], r, [sep]);
    } else {
      assert SplitOn(s, sep) == [s];
    }
  }

  lemma JoinCons(w: string, ws: seq<string>, sep: string)
    requires ws != []
    ensures Join([w] + ws, sep) == w + sep + Join(ws, sep)
  {
    assert ([w] + ws)[1..] == ws;
  }

  /** `str.replace(old, new)`: non-overlapping occurrences, left to right. */
  function Replace(s: string, pat: string, rep: string): string
    requires pat != []
    decreases |s|
  {
    if |s| < |pat| then s
    else if s[..|pat|] == pat then rep + Replace(s[|pat|..], pat, rep)
    else [s[0]] + Replace(s[1..], pat, rep)
  }

  /** `s.replace(c, "")` for one character `c`. */
  function Remove(s: string, c: char): (r: string)
    ensures c !in r
    ensures forall x :: x in r ==> x in s
  {
    if s == [] then []
    else if s[0] == c then Remove(s[1..], c)
    else [s[0]] + Remove(s[1..], c)
  }

  /** Removing a character is `str.replace` with an empty replacement. */
  lemma {:induction false} RemoveIsReplace(s: string, c: char)
    ensures Remove(s, c) == Replace(s, [c], "")
    decreases |s|
  {
    if s != [] {
      RemoveIsReplace(s[1..], c);
      assert s[..1] == [s[0]];
    }
  }

  function DigitChar(d: nat): char
    requires d < 10
  {
    ('0' as int + d) as char
  }

  function DigitValue(c: char): nat
    requires IsDigit(c)
  {
    c as int - '0' as int
  }

  /** The decimal rendering of a natural number, as `str(n)` gives it. */
  function NatToDecimal(n: nat): (r: string)
    ensures r != [] && forall c :: c in r ==> IsDigit(c)
    ensures r[0] == '0' ==> n == 0 && r == "0"
    decreases n
  {
    if n < 10 then [DigitChar(n)] else NatToDecimal(n / 10) + [DigitChar(n % 10)]
  }

  /** The value of a string of decimal digits. */
  function DecimalValue(s: string): nat
    requires forall c :: c in s ==> IsDigit(c)
    decreases |s|
  {
    if s == [] then 0
    else DecimalValue(s[..|s| - 1]) * 10 + DigitValue(s[|s| - 1])
  }

  /** Reading back a rendered number gives the number. */
  lemma {:induction false} DecimalRoundTrip(n: nat)
    ensures DecimalValue(NatToDecimal(n)) == n
    decreases n
  {
    if n >= 10 {
      var s := NatToDecimal(n);
      DecimalRoundTrip(n / 10);
      assert s[..|s| - 1] == NatToDecimal(n / 10);
    }
  }

  /** Different numbers render differently. */
  lemma NatToDecimalInjective(m: nat, n: nat)
    requires NatToDecimal(m) == NatToDecimal(n)
    ensures m == n
  {
    DecimalRoundTrip(m);
    DecimalRoundTrip(n);
  }

  /** `str(i)` for any integer. */
  function IntToDecimal(i: int): (r: string)
    ensures r != []
  {
    if i < 0 then "-" + NatToDecimal(-i) else NatToDecimal(i)
  }

  /** The integer literal body that `int()` accepts: digits, with single
      underscores allowed between digits. */
  predicate IsDigitGroups(d: string) {
    d != [] && IsDigit(d[0]) && IsDigit(d[|d| - 1])
    && (forall i :: 0 <= i < |d| ==> IsDigit(d[i]) || d[i] == '_')
    && (forall i :: 0 <= i < |d| - 1 ==> d[i] == '_' ==> d[i + 1] != '_')
  }

  /** `int(s)` for a string: surrounding white space, an optional sign and
      underscores between digits are accepted; anything else is the
      `ValueError`, here `None`. */
  function ParseInt(s: string): Option<int>
  {
    var t := Strip(s);
    if t != [] && (t[0] == '-' || t[0] == '+') then
      match ParseDigits(t[1..])
      case None => None
      case Some(v) => Some(if t[0] == '-' then -(v as int) else v)
    else ParseDigits(t)
  }

  function ParseDigits(d: string): Option<nat> {
    if IsDigitGroups(d) then Some(DecimalValue(Remove(d, '_'))) else None
  }

  lemma StripOfNoSpace(s: string)
    requires forall c :: c in s ==> !IsSpace(c)
    ensures Strip(s) == s
  {
    if s != [] {
      assert !IsSpace(s[0]);
      assert LStrip(s) == s;
      assert !IsSpace(s[|s| - 1]);
    }
  }

  lemma RemoveAbsent(s: string, c: char)
    requires c !in s
    ensures Remove(s, c) == s
  {
  }

  /** `int(str(n)) == n` */
  lemma {:induction false} ParseIntRoundTrip(m: nat)
    ensures ParseInt(NatToDecimal(m)) == Some(m)
  {
    var n := NatToDecimal(m);
    ParseDigitsRoundTrip(m);
    NoSpaceDigits(n);
    assert n[0] != '-' && n[0] != '+' by { assert IsDigit(n[0]); }
  }

  /** `int(str(i)) == i` for a signed integer. */
  lemma {:induction false} ParseSignedRoundTrip(i: int)
    ensures ParseInt(IntToDecimal(i)) == Some(i)
  {
    if i >= 0 {
      ParseIntRoundTrip(i);
    } else {
      var n := IntToDecimal(i);
      ParseDigitsRoundTrip(-i);
      forall c | c in n ensures !IsSpace(c) {
        if c != '-' { assert c in NatToDecimal(-i); }
      }
      StripOfNoSpace(n);
      assert n[1..] == NatToDecimal(-i);
    }
  }

  /** The digits of `str(n)` read back as `n`. */
  lemma ParseDigitsRoundTrip(m: nat)
    ensures ParseDigits(NatToDecimal(m)) == Some(m)
  {
    var n := NatToDecimal(m);
    DigitsAreGroups(n);
    RemoveAbsent(n, '_');
    DecimalRoundTrip(m);
  }

  lemma NoSpaceDigits(n: string)
    requires forall c :: c in n ==> IsDigit(c)
    ensures Strip(n) == n
  {
    forall c | c in n ensures !IsSpace(c) { assert IsDigit(c); }
    StripOfNoSpace(n);
  }

  lemma DigitsAreGroups(n: string)
    requires n != [] && forall c :: c in n ==> IsDigit(c)
    ensures IsDigitGroups(n)
  {
    assert forall i :: 0 <= i < |n| ==> IsDigit(n[i]) by {
      forall i | 0 <= i < |n| ensures IsDigit(n[i]) { assert n[i] in n; }
    }
  }

  /** `format(n, "0<w>")` for a non-negative number: left-padded with zeros
      to at least `w` characters. */
  function ZeroPad(n: nat, w: nat): (r: string)
    ensures |r| >= w
    ensures forall c :: c in r ==> IsDigit(c)
  {
    var d := NatToDecimal(n);
    if |d| >= w then d else seq(w - |d|, _ => '0') + d
  }

  /** Reading a zero-padded rendering gives back the number. */
  lemma ZeroPadValue(n: nat, w: nat)
    ensures DecimalValue(ZeroPad(n, w)) == n
  {
    var d := NatToDecimal(n);
    DecimalRoundTrip(n);
    if |d| < w {
      LeadingZeros(seq(w - |d|, _ => '0'), d);
    }
  }

  /** Leading zeros do not change the value of a digit string. */
  lemma {:induction false} LeadingZeros(z: string, d: string)
    requires forall k :: 0 <= k < |z| ==> z[k] == '0'
    requires forall c :: c in d ==> IsDigit(c)
    ensures DecimalValue(z + d) == DecimalValue(d)
    decreases |d|
  {
    if d == [] {
      assert z + d == z;
      ZerosValue(z);
    } else {
      var s := z + d;
      assert s[..|s| - 1] == z + d[..|d| - 1];
      LeadingZeros(z, d[..|d| - 1]);
    }
  }

  lemma {:induction false} ZerosValue(z: string)
    requires forall k :: 0 <= k < |z| ==> z[k] == '0'
    ensures forall c :: c in z ==> IsDigit(c)
    ensures DecimalValue(z) == 0
    decreases |z|
  {
    if z != [] {
      ZerosValue(z[..|z| - 1]);
      assert z == z[..|z| - 1] + [z[|z| - 1]];
    }
  }
}
