/**
 * The work-experience extractor (`WorkExp`): it cuts the EXPERIENCE section out of
 * the résumé text, deletes every line that mentions "intern", reads entries in two
 * grammars (a date range followed by "title, company", and "• title - company -
 * duration" bullets) and maps each entry to a fixed-shape record.
 */
module WorkExp {
  import opened PhpText
  import opened Patterns

  // ---------------------------------------------------------------------------
  // getWorkExperience: the section and the "intern" filter

  /** The words that end the section, tried in this order at each position. */
  const SectionStops: seq<Bytes> := ["internship", "education", "skills", "projects"]

  /** `(?:WORK\s+)?EXPERIENCE[:]?(.+?)(?=INTERNSHIP|EDUCATION|SKILLS|PROJECTS|$)` with the
      i and s flags, trimmed. The optional `WORK\s+` prefix only moves where the whole
      match starts: "experience" cannot begin inside "work" or the whitespace after it, so
      the capture begins after the first "experience" either way. */
  function ExperienceSection(text: Bytes): (r: Option<Bytes>)
    ensures r.Some? <==>
      (FirstMatchCI(text, "experience", 0).Some? && FirstMatchCI(text, "experience", 0).value + 10 < |text|)
    ensures r.Some? ==> Trimmed(r.value)
  {
    match SectionCapture(text, "experience", SectionStops)
    case None => None
    case Some((c, e)) => Some(Trim(text[c..e]))
  }

  /** The first line of a non-empty text, with the newline that ends it if there is one. */
  function FirstLine(s: Bytes): (r: Bytes)
    requires s != []
    ensures 0 < |r| <= |s| && r == s[..|r|]
    ensures |r| < |s| ==> r[|r| - 1] == '\n'
  {
    var e := LineEnd(s, 0);
    if e < |s| then s[..e + 1] else s
  }

  /** `preg_replace('/.*intern.*\n?/i', '', s)`. A match cannot cross a newline before
      "intern", and it starts at the leftmost position whose rest of line holds "intern":
      the start of such a line, since every later search resumes at a line start. So each
      line that mentions "intern" in any case goes, with its newline; the others stay. */
  function DropInternLines(s: Bytes): (r: Bytes)
    ensures |r| <= |s|
    decreases |s|
  {
    if s == [] then []
    else
      var line := FirstLine(s);
      (if ContainsCI(line, "intern") then [] else line) + DropInternLines(s[|line|..])
  }

  /** A match of "intern" in `a + b` that is in neither part would have to cover the
      newline that ends `a`. */
  lemma NoInternAcrossNewline(a: Bytes, b: Bytes)
    requires !ContainsCI(a, "intern") && !ContainsCI(b, "intern")
    requires a == [] || b == [] || a[|a| - 1] == '\n'
    ensures !ContainsCI(a + b, "intern")
  {
    forall i: nat | i + 6 <= |a + b|
      ensures !MatchCI(a + b, i, "intern")
    {
      if i + 6 <= |a| {
        assert !MatchCI(a, i, "intern");
        var k :| 0 <= k < 6 && Lower(a[i + k]) != "intern"[k];
        assert (a + b)[i + k] == a[i + k];
      } else if i >= |a| {
        assert !MatchCI(b, i - |a|, "intern");
        var k :| 0 <= k < 6 && Lower(b[i - |a| + k]) != "intern"[k];
        assert (a + b)[i + k] == b[i - |a| + k];
      } else {
        var k := |a| - 1 - i;
        assert (a + b)[i + k] == '\n' && Lower('\n') == '\n';
        assert "intern"[k] != '\n';
      }
    }
  }

  /** After the filter no "intern" is left, in any case. */
  lemma {:induction false} DropInternLinesClean(s: Bytes)
    ensures !ContainsCI(DropInternLines(s), "intern")
    decreases |s|
  {
    if s != [] {
      var line := FirstLine(s);
      var kept := if ContainsCI(line, "intern") then [] else line;
      DropInternLinesClean(s[|line|..]);
      assert s[|line|..] == [] ==> DropInternLines(s[|line|..]) == [];
      NoInternAcrossNewline(kept, DropInternLines(s[|line|..]));
    }
  }

  /** What the filter does to the first line of a non-empty text. */
  function KeptLine(s: Bytes): Bytes
    requires s != []
  {
    if ContainsCI(FirstLine(s), "intern") then [] else FirstLine(s)
  }

  lemma DropInternLinesStep(s: Bytes, n: nat)
    requires s != [] && n == |FirstLine(s)|
    ensures DropInternLines(s) == KeptLine(s) + DropInternLines(s[n..])
  {
  }

  /** The filter works line by line: it can be applied to the lines of `a` and to the
      rest of the text separately when `a` ends with a newline. */
  lemma {:induction false} DropInternLinesAppend(a: Bytes, b: Bytes)
    requires a == [] || a[|a| - 1] == '\n'
    ensures DropInternLines(a + b) == DropInternLines(a) + DropInternLines(b)
    decreases |a|
  {
    if a == [] {
      assert a + b == b;
    } else {
      var n := |FirstLine(a)|;
      var rest := a[n..];
      assert rest == [] || rest[|rest| - 1] == '\n';
      DropInternLinesAppend(rest, b);
      DropInternLinesAppendHead(a, b, n);
      DropInternLinesStep(a, n);
      AppendAssoc(KeptLine(a), DropInternLines(rest), DropInternLines(b));
    }
  }

  /** Past the first line of `a`, which ends in `a`, the filter goes on in `a[n..] + b`. */
  lemma DropInternLinesAppendHead(a: Bytes, b: Bytes, n: nat)
    requires a != [] && a[|a| - 1] == '\n' && n == |FirstLine(a)|
    ensures DropInternLines(a + b) == KeptLine(a) + DropInternLines(a[n..] + b)
  {
    FirstLineOfAppend(a, b);
    assert (a + b)[n..] == a[n..] + b;
    DropInternLinesStep(a + b, n);
  }

  /** A text that ends with a newline has the same first line with anything after it. */
  lemma FirstLineOfAppend(a: Bytes, b: Bytes)
    requires a != [] && a[|a| - 1] == '\n'
    ensures FirstLine(a + b) == FirstLine(a) && KeptLine(a + b) == KeptLine(a)
  {
    var e := LineEnd(a, 0);
    assert e < |a|;
    var e2 := LineEnd(a + b, 0);
    assert (a + b)[e] == '\n';
    assert e2 <= e;
    assert forall k :: 0 <= k < e ==> (a + b)[k] == a[k];
    assert e2 == e;
    assert (a + b)[..e + 1] == a[..e + 1];
  }

  /** One line, with or without its newline, goes when it mentions "intern" in any case
      and stays whole otherwise. */
  lemma DropInternLinesOneLine(l: Bytes, nl: Bytes)
    requires forall k :: 0 <= k < |l| ==> l[k] != '\n'
    requires nl == "" || nl == "\n"
    ensures DropInternLines(l + nl) == if ContainsCI(l, "intern") then [] else l + nl
  {
    var s := l + nl;
    if s != [] {
      var e := LineEnd(s, 0);
      assert forall k :: 0 <= k < |l| ==> s[k] == l[k];
      assert |l| < |s| ==> s[|l|] == '\n';
      assert e == |l|;
      assert FirstLine(s) == s;
      assert s[|s|..] == [];
      InternNotAtNewline(l, nl);
    } else {
      assert l == [];
      assert !ContainsCI(l, "intern");
    }
  }

  /** A newline after a line cannot complete an "intern" the line does not hold. */
  lemma InternNotAtNewline(l: Bytes, nl: Bytes)
    requires nl == "" || nl == "\n"
    ensures ContainsCI(l + nl, "intern") <==> ContainsCI(l, "intern")
  {
    var s := l + nl;
    if ContainsCI(l, "intern") {
      var i: nat :| i + 6 <= |l| && MatchCI(l, i, "intern");
      assert forall k :: i <= k < i + 6 ==> s[k] == l[k];
      assert MatchCI(s, i, "intern");
    }
    if ContainsCI(s, "intern") {
      var i: nat :| i + 6 <= |s| && MatchCI(s, i, "intern");
      assert Lower(s[i + 5]) == "intern"[5];
      assert s[i + 5] != '\n';
      assert i + 6 <= |l|;
      assert forall k :: i <= k < i + 6 ==> s[k] == l[k];
      assert MatchCI(l, i, "intern");
    }
  }

  /** A text without "intern" passes the filter unchanged. */
  lemma {:induction false} DropInternLinesKeeps(s: Bytes)
    requires !ContainsCI(s, "intern")
    ensures DropInternLines(s) == s
    decreases |s|
  {
    if s != [] {
      var line := FirstLine(s);
      var n := |line|;
      assert s[0..n] == line;
      assert s[n..|s|] == s[n..];
      if ContainsCI(line, "intern") {
        ContainsCIInfix(s, 0, n, "intern");
      }
      if ContainsCI(s[n..], "intern") {
        ContainsCIInfix(s, n, |s|, "intern");
      }
      DropInternLinesKeeps(s[n..]);
      DropInternLinesStep(s, n);
      assert line + s[n..] == s;
    }
  }

  // ---------------------------------------------------------------------------
  // The captures of one match, in the order `preg_match_all` with PREG_SET_ORDER
  // gives them: the whole match and groups 1 to 3

  datatype Groups = Groups(whole: Bytes, g1: Bytes, g2: Bytes, g3: Bytes)

  /** No capture of `m` holds `w`, in any case. */
  predicate FreeOf(m: Groups, w: Bytes) {
    !ContainsCI(m.whole, w) && !ContainsCI(m.g1, w) && !ContainsCI(m.g2, w) && !ContainsCI(m.g3, w)
  }

  /** The captures of a match are slices of the text, so a word absent from the text is
      absent from them. */
  lemma SlicesFreeOf(s: Bytes, w: Bytes, p: nat, a: nat, b: nat, c: nat, d: nat, f: nat, g: nat, e: nat)
    requires !ContainsCI(s, w)
    requires p <= a <= b <= e && p <= c <= d <= e && p <= f <= g <= e && e <= |s|
    ensures FreeOf(Groups(s[p..e], s[a..b], s[c..d], s[f..g]), w)
  {
    if ContainsCI(s[p..e], w) { ContainsCIInfix(s, p, e, w); }
    if ContainsCI(s[a..b], w) { ContainsCIInfix(s, a, b, w); }
    if ContainsCI(s[c..d], w) { ContainsCIInfix(s, c, d, w); }
    if ContainsCI(s[f..g], w) { ContainsCIInfix(s, f, g, w); }
  }

  // ---------------------------------------------------------------------------
  // The structured grammar:
  // ([A-Z][a-z]+ \d{4} - (?:[A-Z][a-z]+ \d{4}|Present))\s*([^\n]+?)\s*,\s*([^\n]+)  (i flag)

  /** The end of the run of ASCII letters that starts at `p`. */
  function LetterRunEnd(s: Bytes, p: nat): (r: nat)
    requires p <= |s|
    ensures p <= r <= |s| && (r == |s| || !IsLetter(s[r]))
    ensures forall k :: p <= k < r ==> IsLetter(s[k])
    decreases |s| - p
  {
    if p < |s| && IsLetter(s[p]) then LetterRunEnd(s, p + 1) else p
  }

  /** `[A-Z][a-z]+ \d{4}` at `p`; with the i flag both classes take any ASCII letter. The
      next byte must be a space, so the greedy `[a-z]+` only succeeds with the longest run. */
  function MonthYearEnd(s: Bytes, p: nat): (r: Option<nat>)
    requires p <= |s|
    ensures r.Some? ==> p + 7 <= r.value <= |s| && IsLetter(s[p]) && IsLetter(s[p + 1])
    ensures r.Some? ==> s[r.value - 5] == ' ' && FourDigits(s, r.value - 4)
  {
    var m := LetterRunEnd(s, p);
    if m >= p + 2 && m < |s| && s[m] == ' ' && FourDigits(s, m + 1) then Some(m + 5) else None
  }

  /** `[A-Z][a-z]+ \d{4} - ` at `p`: where the second half of the range starts. */
  function RangeHead(s: Bytes, p: nat): (r: Option<nat>)
    requires p <= |s|
    ensures r.Some? ==> p + 10 <= r.value <= |s|
  {
    match MonthYearEnd(s, p)
    case None => None
    case Some(m) => if m + 3 <= |s| && s[m] == ' ' && s[m + 1] == '-' && s[m + 2] == ' ' then Some(m + 3) else None
  }

  /** `\s*,\s*` followed by a non-newline byte, after the title ends at `u`: where the
      company (`[^\n]+`) starts. The comma must follow the longest whitespace run; after
      it, the greedy `\s*` gives back bytes until `[^\n]+` can start. */
  function CommaTail(s: Bytes, u: nat): (r: Option<nat>)
    requires u <= |s|
    ensures r.Some? ==> var v := SkipSpace(s, u);
      v < |s| && s[v] == ',' && v < r.value < |s| && s[r.value] != '\n'
  {
    var v := SkipSpace(s, u);
    if v < |s| && s[v] == ',' then LineCharBackoff(s, v + 1, SkipSpace(s, v + 1)) else None
  }

  /** The lazy `([^\n]+?)` that has reached `u`: the first end, from `u` on, after which
      the rest of the pattern matches; the title may not cross a newline. */
  function LazyTitle(s: Bytes, u: nat): (r: Option<nat>)
    requires u <= |s|
    ensures r.Some? ==> u <= r.value <= |s| && CommaTail(s, r.value).Some?
    ensures r.Some? ==> forall k :: u <= k < r.value ==> s[k] != '\n'
    decreases |s| - u
  {
    if CommaTail(s, u).Some? then Some(u)
    else if u < |s| && s[u] != '\n' then LazyTitle(s, u + 1)
    else None
  }

  /** The lazy title takes the first end that works: no shorter one does. */
  lemma {:induction false} LazyTitleFirst(s: Bytes, u: nat, q: nat)
    requires u <= q <= |s| && LazyTitle(s, u).Some? && q < LazyTitle(s, u).value
    ensures CommaTail(s, q).None?
    decreases q - u
  {
    if u < q {
      LazyTitleFirst(s, u + 1, q);
    }
  }

  /** The greedy `\s*` before the title gives bytes back from `t` down to `lo`: the first
      start that lets the title and the rest match, with the title's end. */
  function TitleAt(s: Bytes, lo: nat, t: nat): (r: Option<(nat, nat)>)
    requires lo <= t <= |s|
    ensures r.Some? ==> lo <= r.value.0 <= t && r.value.0 < r.value.1 <= |s|
    ensures r.Some? ==> forall k :: r.value.0 <= k < r.value.1 ==> s[k] != '\n'
    ensures r.Some? ==> CommaTail(s, r.value.1).Some?
    decreases t - lo
  {
    if t < |s| && s[t] != '\n' && LazyTitle(s, t + 1).Some? then Some((t, LazyTitle(s, t + 1).value))
    else if t == lo then None
    else TitleAt(s, lo, t - 1)
  }

  /** `\s*([^\n]+?)\s*,\s*([^\n]+)` from `x`: the title as (start, end) and the company as
      (start, end); the greedy company runs to the end of its line. */
  function TitleCompany(s: Bytes, x: nat): (r: Option<(nat, nat, nat, nat)>)
    requires x <= |s|
    ensures r.Some? ==> var (t, u, z, e) := r.value;
      x <= t < u < z < e <= |s| && e == LineEnd(s, z)
    ensures r.Some? ==> forall k :: r.value.0 <= k < r.value.1 ==> s[k] != '\n'
  {
    match TitleAt(s, x, SkipSpace(s, x))
    case None => None
    case Some((t, u)) =>
      var z := CommaTail(s, u).value;
      Some((t, u, z, LineEnd(s, z)))
  }

  /** Where group 1 ends after the range head `h`, with the title and company spans that
      follow it: the alternation tries "Month YYYY" before "Present", and falls back to
      "Present" when the rest fails after the first. */
  function GroupOneEnd(s: Bytes, h: nat): (r: Option<(nat, nat, nat, nat, nat)>)
    requires h <= |s|
    ensures r.Some? ==> var (x, t, u, z, e) := r.value; h < x <= t < u < z < e <= |s|
  {
    var m := MonthYearEnd(s, h);
    var a := if m.Some? then TitleCompany(s, m.value) else None;
    if a.Some? then Some((m.value, a.value.0, a.value.1, a.value.2, a.value.3))
    else
      var b := if h + 7 <= |s| && MatchCI(s, h, "present") then TitleCompany(s, h + 7) else None;
      if b.Some? then Some((h + 7, b.value.0, b.value.1, b.value.2, b.value.3)) else None
  }

  /** The structured pattern at `p`. */
  function StructuredAt(s: Bytes, p: nat): (r: Option<(nat, Groups)>)
    requires p <= |s|
    ensures r.Some? ==> p < r.value.0 <= |s|
  {
    match RangeHead(s, p)
    case None => None
    case Some(h) =>
      match GroupOneEnd(s, h)
      case None => None
      case Some(spans) => Some(StructuredCaptures(s, p, spans))
  }

  /** The captures once group 1 is known to end at `x`: where the match ends, and the
      captures as slices of the text. */
  function StructuredCaptures(s: Bytes, p: nat, spans: (nat, nat, nat, nat, nat)): (r: (nat, Groups))
    requires var (x, t, u, z, e) := spans; p < x <= t < u < z < e <= |s|
    ensures p < r.0 <= |s|
  {
    var (x, t, u, z, e) := spans;
    (e, Groups(s[p..e], s[p..x], s[t..u], s[z..e]))
  }

  /** The captures of a structured match are slices of the text. */
  lemma StructuredAtFree(s: Bytes, p: nat, w: Bytes)
    requires p <= |s| && !ContainsCI(s, w) && StructuredAt(s, p).Some?
    ensures FreeOf(StructuredAt(s, p).value.1, w)
  {
    var (x, t, u, z, e) := GroupOneEnd(s, RangeHead(s, p).value).value;
    SlicesFreeOf(s, w, p, p, x, t, u, z, e, e);
  }

  /** `preg_match_all` of the structured pattern from `i`: every match, left to right,
      each search resuming where the previous match ended. */
  function StructuredMatches(s: Bytes, i: nat): (r: seq<Groups>)
    requires i <= |s|
    decreases |s| - i
  {
    if i == |s| then []
    else match StructuredAt(s, i)
      case Some((e, m)) => [m] + StructuredMatches(s, e)
      case None => StructuredMatches(s, i + 1)
  }

  lemma {:induction false} StructuredMatchesFree(s: Bytes, i: nat, w: Bytes)
    requires i <= |s| && !ContainsCI(s, w)
    ensures forall m :: m in StructuredMatches(s, i) ==> FreeOf(m, w)
    decreases |s| - i
  {
    if i < |s| {
      var r := StructuredAt(s, i);
      if r.Some? {
        var (e, m) := r.value;
        StructuredMatchesCons(s, i, e, m);
        StructuredAtFree(s, i, w);
        StructuredMatchesFree(s, e, w);
      } else {
        StructuredMatchesFree(s, i + 1, w);
      }
    }
  }

  /** A structured match at `i` is the first of the matches from `i`. */
  lemma StructuredMatchesCons(s: Bytes, i: nat, e: nat, m: Groups)
    requires i < |s| && StructuredAt(s, i) == Some((e, m))
    ensures StructuredMatches(s, i) == [m] + StructuredMatches(s, e)
  {
  }

  /** `\s*` from `q` stops at the first byte that is not whitespace. */
  lemma {:induction false} SkipSpaceTo(s: Bytes, q: nat, c: nat)
    requires q <= c < |s| && !IsSpace(s[c])
    requires forall k :: q <= k < c ==> IsSpace(s[k])
    ensures SkipSpace(s, q) == c
    decreases c - q
  {
    if q < c {
      SkipSpaceTo(s, q + 1, c);
    }
  }

  /** The lazy title, grown to `q` on a line whose next comma is at `c` and is followed by
      a company, stops at or before `c` with only whitespace left before the comma. */
  lemma {:induction false} LazyTitleStops(s: Bytes, q: nat, c: nat)
    requires q <= c < |s| && s[c] == ',' && CommaTail(s, c).Some?
    requires forall k :: q <= k < c ==> s[k] != '\n' && s[k] != ','
    ensures LazyTitle(s, q).Some? && LazyTitle(s, q).value <= c
    ensures forall k :: LazyTitle(s, q).value <= k < c ==> IsSpace(s[k])
    ensures CommaTail(s, LazyTitle(s, q).value) == CommaTail(s, c)
    decreases c - q
  {
    if CommaTail(s, q).Some? {
      CommaTailAtComma(s, q, c);
    } else {
      assert q != c;
      LazyTitleStops(s, q + 1, c);
      assert LazyTitle(s, q) == LazyTitle(s, q + 1);
    }
  }

  /** When `\s*,` already matches at `q`, before the first comma at `c`, the whitespace
      run reaches that comma. */
  lemma CommaTailAtComma(s: Bytes, q: nat, c: nat)
    requires q <= c < |s| && s[c] == ',' && CommaTail(s, q).Some?
    requires forall k :: q <= k < c ==> s[k] != ','
    ensures SkipSpace(s, q) == c && CommaTail(s, q) == CommaTail(s, c)
    ensures forall k :: q <= k < c ==> IsSpace(s[k])
  {
    SkipSpaceTo(s, c, c);
  }

  /** "The title is the text before the first comma and the company is the rest of the
      line": when the title starts on a byte that is not whitespace and the first comma
      after it on the line is followed by a company, the title runs up to that comma less
      the whitespace before it, and the company is where `\s*,\s*` after the comma leads. */
  lemma TitleCompanyAtComma(s: Bytes, x: nat, c: nat)
    requires x <= |s| && SkipSpace(s, x) < c < |s| && s[c] == ',' && CommaTail(s, c).Some?
    requires forall k :: SkipSpace(s, x) <= k < c ==> s[k] != '\n' && s[k] != ','
    ensures TitleCompany(s, x).Some?
    ensures var (t, u, z, e) := TitleCompany(s, x).value;
      && t == SkipSpace(s, x) && t < u <= c && !IsSpace(s[u - 1])
      && (forall k :: u <= k < c ==> IsSpace(s[k]))
      && z == CommaTail(s, c).value && e == LineEnd(s, z)
  {
    var y := SkipSpace(s, x);
    var u := TitleAtComma(s, x, y, c);
    var z := CommaTail(s, u).value;
    assert TitleCompany(s, x) == Some((y, u, z, LineEnd(s, z)));
  }

  /** The first step of the lemma above: the title starts at `y` and ends at `u`. */
  lemma TitleAtComma(s: Bytes, x: nat, y: nat, c: nat) returns (u: nat)
    requires x <= y < c < |s| && !IsSpace(s[y]) && s[c] == ',' && CommaTail(s, c).Some?
    requires forall k :: y <= k < c ==> s[k] != '\n' && s[k] != ','
    ensures TitleAt(s, x, y) == Some((y, u))
    ensures y < u <= c && !IsSpace(s[u - 1]) && (forall k :: u <= k < c ==> IsSpace(s[k]))
    ensures CommaTail(s, u) == CommaTail(s, c)
  {
    LazyTitleStops(s, y + 1, c);
    LazyTitleEndsOnText(s, y + 1);
    u := LazyTitle(s, y + 1).value;
  }

  /** A title never ends on whitespace: one byte shorter would leave the same `\s*,` ahead. */
  lemma LazyTitleEndsOnText(s: Bytes, q: nat)
    requires 0 < q <= |s| && !IsSpace(s[q - 1]) && LazyTitle(s, q).Some?
    ensures !IsSpace(s[LazyTitle(s, q).value - 1])
  {
    var u := LazyTitle(s, q).value;
    if u > q {
      LazyTitleFirst(s, q, u - 1);
      CommaTailSkipsSpace(s, u - 1);
    }
  }

  /** `\s*,` sees the same comma from a whitespace byte as from the byte after it. */
  lemma CommaTailSkipsSpace(s: Bytes, q: nat)
    requires q < |s|
    ensures IsSpace(s[q]) ==> CommaTail(s, q) == CommaTail(s, q + 1)
  {
    if IsSpace(s[q]) {
      assert SkipSpace(s, q) == SkipSpace(s, q + 1);
    }
  }

  /** A letter run from `q` ends at the first byte that is not a letter. */
  lemma {:induction false} LetterRunTo(s: Bytes, q: nat, c: nat)
    requires q <= c <= |s| && (c == |s| || !IsLetter(s[c]))
    requires forall k :: q <= k < c ==> IsLetter(s[k])
    ensures LetterRunEnd(s, q) == c
    decreases c - q
  {
    if q < c {
      LetterRunTo(s, q + 1, c);
    }
  }

  /** Group 1 read on a line that starts "Month YYYY - Present " followed by a byte that is
      not a digit: "Present" cannot start a "Month YYYY", so the second alternative applies. */
  lemma RangeToPresent(s: Bytes, a: nat)
    requires a >= 2 && a + 17 < |s| && forall k :: 0 <= k < a ==> IsLetter(s[k])
    requires s[a] == ' ' && FourDigits(s, a + 1) && s[a + 5] == ' ' && s[a + 6] == '-' && s[a + 7] == ' '
    requires forall k :: 0 <= k < 7 ==> s[a + 8 + k] == "Present"[k]
    requires s[a + 15] == ' ' && !IsDigit(s[a + 16])
    ensures RangeHead(s, 0) == Some(a + 8)
    ensures MonthYearEnd(s, a + 8).None? && MatchCI(s, a + 8, "present")
  {
    LetterRunTo(s, 0, a);
    forall k | a + 8 <= k < a + 15
      ensures IsLetter(s[k]) && Lower(s[k]) == "present"[k - a - 8]
    {
      assert s[a + 8 + (k - a - 8)] == "Present"[k - a - 8];
    }
    assert forall k :: 0 <= k < 7 ==> Lower(s[a + 8 + k]) == "present"[k];
    LetterRunTo(s, a + 8, a + 15);
  }

  /** `\s*([^\n]+?)\s*,\s*([^\n]+)` on " Title, Company" with a title that has no comma
      and does not end on whitespace, and a company that is the rest of the text. */
  lemma TitleCompanyLine(s: Bytes, x: nat, c: nat)
    requires x + 1 < c && c + 2 < |s| && s[x] == ' ' && !IsSpace(s[x + 1]) && !IsSpace(s[c - 1])
    requires forall k :: x + 1 <= k < c ==> s[k] != ',' && s[k] != '\n'
    requires s[c] == ',' && s[c + 1] == ' ' && !IsSpace(s[c + 2])
    requires forall k :: c + 2 <= k < |s| ==> s[k] != '\n'
    ensures TitleCompany(s, x) == Some((x + 1, c, c + 2, |s|))
  {
    SkipSpaceTo(s, x, x + 1);
    SkipSpaceTo(s, c, c);
    SkipSpaceTo(s, c + 1, c + 2);
    assert CommaTail(s, c) == Some(c + 2);
    TitleCompanyAtComma(s, x, c);
  }

  /** The layout of a line "Month YYYY - Present Title, Company" by positions: the month
      is the `a` letters before the first space, the title runs from `a + 16` to the comma at
      `c`, does not start with a digit (then "Present YYYY" would be read as the end of the
      range) and has no comma, and the company is the rest of the text. */
  predicate PresentLine(s: Bytes, a: nat, c: nat) {
    && a >= 2 && a + 16 < c && c + 2 < |s| && (forall k :: 0 <= k < a ==> IsLetter(s[k]))
    && s[a] == ' ' && FourDigits(s, a + 1) && s[a + 5] == ' ' && s[a + 6] == '-' && s[a + 7] == ' '
    && (forall k :: 0 <= k < 7 ==> s[a + 8 + k] == "Present"[k])
    && s[a + 15] == ' ' && !IsDigit(s[a + 16]) && !IsSpace(s[a + 16]) && !IsSpace(s[c - 1])
    && (forall k :: a + 16 <= k < c ==> s[k] != ',' && s[k] != '\n')
    && s[c] == ',' && s[c + 1] == ' ' && !IsSpace(s[c + 2])
    && (forall k :: c + 2 <= k < |s| ==> s[k] != '\n')
  }

  /** On such a line the range head ends after "- " and group 1 after "Present". */
  lemma PresentLineSpans(s: Bytes, a: nat, c: nat)
    requires PresentLine(s, a, c)
    ensures RangeHead(s, 0) == Some(a + 8) && GroupOneEnd(s, a + 8) == Some((a + 15, a + 16, c, c + 2, |s|))
  {
    RangeToPresent(s, a);
    GroupOneAtPresent(s, a + 8, c);
  }

  /** A structured match at the start of the text that runs to its end is the only one. */
  lemma OneStructuredMatch(s: Bytes, m: Groups)
    requires 0 < |s| && StructuredAt(s, 0) == Some((|s|, m))
    ensures StructuredMatches(s, 0) == [m]
  {
  }

  /** A structured match is its range head and group-1 spans, read as slices. */
  lemma StructuredAtSpans(s: Bytes, p: nat, h: nat, x: nat, t: nat, u: nat, z: nat, e: nat)
    requires p < |s| && h <= |s| && RangeHead(s, p) == Some(h) && GroupOneEnd(s, h) == Some((x, t, u, z, e))
    ensures StructuredAt(s, p) == Some((e, Groups(s[p..e], s[p..x], s[t..u], s[z..e])))
  {
  }

  /** After "Present" (which starts no "Month YYYY"), group 1 ends after the word and the
      title and company follow. */
  lemma GroupOneAtPresent(s: Bytes, h: nat, c: nat)
    requires h + 8 < c && c + 2 < |s| && MonthYearEnd(s, h).None? && MatchCI(s, h, "present")
    requires s[h + 7] == ' ' && !IsSpace(s[h + 8]) && !IsSpace(s[c - 1])
    requires forall k :: h + 8 <= k < c ==> s[k] != ',' && s[k] != '\n'
    requires s[c] == ',' && s[c + 1] == ' ' && !IsSpace(s[c + 2])
    requires forall k :: c + 2 <= k < |s| ==> s[k] != '\n'
    ensures GroupOneEnd(s, h) == Some((h + 7, h + 8, c, c + 2, |s|))
  {
    TitleCompanyLine(s, h + 7, c);
  }

  /** "Jan 2021 - Present Dev, Acme" gives one match: the duration "Jan 2021 - Present",
      the title "Dev" and the company "Acme". */
  lemma StructuredExampleMatch()
    ensures StructuredMatches("Jan 2021 - Present Dev, Acme", 0) == [Groups("Jan 2021 - Present Dev, Acme", "Jan 2021 - Present", "Dev", "Acme")]
  {
    var s := "Jan 2021 - Present Dev, Acme";
    StructuredExampleLayout();
    PresentLineSpans(s, 3, 22);
    StructuredAtSpans(s, 0, 11, 18, 19, 22, 24, 28);
    StructuredExampleSlices();
    OneStructuredMatch(s, Groups(s, "Jan 2021 - Present", "Dev", "Acme"));
  }

  lemma StructuredExampleLayout()
    ensures PresentLine("Jan 2021 - Present Dev, Acme", 3, 22)
  {
    StructuredExampleDate();
    StructuredExamplePresent();
    StructuredExampleTail();
  }

  lemma StructuredExampleDate()
    ensures var s := "Jan 2021 - Present Dev, Acme";
      && |s| == 28 && (forall k :: 0 <= k < 3 ==> IsLetter(s[k]))
      && s[3] == ' ' && FourDigits(s, 4) && s[8] == ' ' && s[9] == '-' && s[10] == ' '
  {
    StructuredExampleMonth();
    StructuredExampleYear();
  }

  lemma StructuredExampleMonth()
    ensures var s := "Jan 2021 - Present Dev, Acme";
      |s| == 28 && IsLetter(s[0]) && IsLetter(s[1]) && IsLetter(s[2]) && s[3] == ' '
  {
  }

  lemma StructuredExampleYear()
    ensures var s := "Jan 2021 - Present Dev, Acme";
      && IsDigit(s[4]) && IsDigit(s[5]) && IsDigit(s[6]) && IsDigit(s[7])
      && s[8] == ' ' && s[9] == '-' && s[10] == ' '
  {
  }

  lemma StructuredExamplePresent()
    ensures var s := "Jan 2021 - Present Dev, Acme";
      forall k :: 0 <= k < 7 ==> s[11 + k] == "Present"[k]
  {
    var s := "Jan 2021 - Present Dev, Acme";
    assert s[11] == 'P' && s[12] == 'r' && s[13] == 'e' && s[14] == 's' && s[15] == 'e' && s[16] == 'n' && s[17] == 't';
  }

  lemma StructuredExampleTail()
    ensures var s := "Jan 2021 - Present Dev, Acme";
      && s[18] == ' ' && !IsDigit(s[19]) && !IsSpace(s[19]) && !IsSpace(s[21])
      && (forall k :: 19 <= k < 22 ==> s[k] != ',' && s[k] != '\n')
      && s[22] == ',' && s[23] == ' ' && !IsSpace(s[24])
      && (forall k :: 24 <= k < |s| ==> s[k] != '\n')
  {
  }

  lemma StructuredExampleSlices()
    ensures var s := "Jan 2021 - Present Dev, Acme";
      && s[0..28] == s && s[0..18] == "Jan 2021 - Present" && s[19..22] == "Dev" && s[24..28] == "Acme"
  {
  }

  /** With no two letters in a row there is no "Month YYYY" to start a structured match. */
  lemma {:induction false} StructuredMatchesNone(s: Bytes, i: nat)
    requires i <= |s|
    requires forall k :: i <= k < |s| - 1 ==> !(IsLetter(s[k]) && IsLetter(s[k + 1]))
    ensures StructuredMatches(s, i) == []
    decreases |s| - i
  {
    if i < |s| {
      assert MonthYearEnd(s, i).None?;
      StructuredMatchesNone(s, i + 1);
    }
  }

  // ---------------------------------------------------------------------------
  // The bullet grammar:
  // •\s*([^\n]+?)\s*[,-]\s*([^\n]+?)\s*[,-]\s*([^\n]+?)(?=\n•|\n\n|$)  (i flag)

  /** `\s*[,-]` after a group that ends at `u`: the separator's position, which must
      follow the longest whitespace run. */
  function SepAt(s: Bytes, u: nat): (r: Option<nat>)
    requires u <= |s|
    ensures r.Some? ==> u <= r.value < |s| && (s[r.value] == ',' || s[r.value] == '-')
  {
    var v := SkipSpace(s, u);
    if v < |s| && (s[v] == ',' || s[v] == '-') then Some(v) else None
  }

  /** The lookahead `(?=\n•|\n\n|$)` at `e`. */
  predicate BulletStop(s: Bytes, e: nat)
    requires e <= |s|
  {
    MatchAt(s, e, "\n" + Bullet) || MatchAt(s, e, "\n\n") || AtDollar(s, e)
  }

  /** The last group, `\s*([^\n]+?)(?=…)`, with the whitespace given back from `t` down to
      `lo`. The lookahead needs a newline or the end of the text, so the lazy group can only
      stop at the end of its line. */
  function LastGroup(s: Bytes, lo: nat, t: nat): (r: Option<(nat, nat)>)
    requires lo <= t <= |s|
    ensures r.Some? ==> lo <= r.value.0 < r.value.1 <= |s| && r.value.1 == LineEnd(s, r.value.0)
    ensures r.Some? ==> BulletStop(s, r.value.1)
    decreases t - lo
  {
    if t < |s| && s[t] != '\n' && BulletStop(s, LineEnd(s, t)) then Some((t, LineEnd(s, t)))
    else if t == lo then None
    else LastGroup(s, lo, t - 1)
  }

  /** The second group, lazily grown from `u`, then the separator and the last group. */
  function LazySecond(s: Bytes, u: nat): (r: Option<(nat, nat, nat)>)
    requires u <= |s|
    ensures r.Some? ==> var (u2, f, g) := r.value;
      u <= u2 < f < g <= |s| && BulletStop(s, g)
    ensures r.Some? ==> forall k :: u <= k < r.value.0 ==> s[k] != '\n'
    decreases |s| - u
  {
    var sep := SepAt(s, u);
    var last := if sep.Some? then LastGroup(s, sep.value + 1, SkipSpace(s, sep.value + 1)) else None;
    if last.Some? then Some((u, last.value.0, last.value.1))
    else if u < |s| && s[u] != '\n' then LazySecond(s, u + 1)
    else None
  }

  /** The second group's start, with the whitespace before it given back from `t` to `lo`. */
  function SecondGroup(s: Bytes, lo: nat, t: nat): (r: Option<(nat, nat, nat, nat)>)
    requires lo <= t <= |s|
    ensures r.Some? ==> var (c, d, f, g) := r.value;
      lo <= c < d < f < g <= |s| && BulletStop(s, g)
    ensures r.Some? ==> forall k :: r.value.0 <= k < r.value.1 ==> s[k] != '\n'
    decreases t - lo
  {
    var second := if t < |s| && s[t] != '\n' then LazySecond(s, t + 1) else None;
    if second.Some? then Some((t, second.value.0, second.value.1, second.value.2))
    else if t == lo then None
    else SecondGroup(s, lo, t - 1)
  }

  /** The first group, lazily grown from `u`, then a separator and the other two groups. */
  function LazyFirst(s: Bytes, u: nat): (r: Option<(nat, nat, nat, nat, nat)>)
    requires u <= |s|
    ensures r.Some? ==> var (b, c, d, f, g) := r.value;
      u <= b < c < d < f < g <= |s| && BulletStop(s, g)
    ensures r.Some? ==> forall k :: u <= k < r.value.0 ==> s[k] != '\n'
    decreases |s| - u
  {
    var sep := SepAt(s, u);
    var rest := if sep.Some? then SecondGroup(s, sep.value + 1, SkipSpace(s, sep.value + 1)) else None;
    if rest.Some? then Some((u, rest.value.0, rest.value.1, rest.value.2, rest.value.3))
    else if u < |s| && s[u] != '\n' then LazyFirst(s, u + 1)
    else None
  }

  /** The first group's start, with the whitespace after the bullet given back from `t`. */
  function FirstGroup(s: Bytes, lo: nat, t: nat): (r: Option<(nat, nat, nat, nat, nat, nat)>)
    requires lo <= t <= |s|
    ensures r.Some? ==> var (a, b, c, d, f, g) := r.value;
      lo <= a < b < c < d < f < g <= |s| && BulletStop(s, g)
    ensures r.Some? ==> forall k :: r.value.0 <= k < r.value.1 ==> s[k] != '\n'
    decreases t - lo
  {
    var first := if t < |s| && s[t] != '\n' then LazyFirst(s, t + 1) else None;
    if first.Some? then Some((t, first.value.0, first.value.1, first.value.2, first.value.3, first.value.4))
    else if t == lo then None
    else FirstGroup(s, lo, t - 1)
  }

  /** The bullet pattern at `p`: where the match ends, and its captures. */
  function BulletAt(s: Bytes, p: nat): (r: Option<(nat, Groups)>)
    requires p <= |s|
    ensures r.Some? ==> p < r.value.0 <= |s| && BulletStop(s, r.value.0)
  {
    if !MatchAt(s, p, Bullet) then None
    else match FirstGroup(s, p + 3, SkipSpace(s, p + 3))
      case None => None
      case Some(spans) => Some(BulletCaptures(s, p, spans))
  }

  /** The captures of a bullet match that starts at `p`, from the group boundaries. */
  function BulletCaptures(s: Bytes, p: nat, spans: (nat, nat, nat, nat, nat, nat)): (r: (nat, Groups))
    requires var (a, b, c, d, f, g) := spans; p <= a <= b <= c <= d <= f <= g <= |s|
    ensures r.0 == spans.5
  {
    var (a, b, c, d, f, g) := spans;
    (g, Groups(s[p..g], s[a..b], s[c..d], s[f..g]))
  }

  /** The captures of a bullet match are slices of the text. */
  lemma BulletAtFree(s: Bytes, p: nat, w: Bytes)
    requires p <= |s| && !ContainsCI(s, w) && BulletAt(s, p).Some?
    ensures FreeOf(BulletAt(s, p).value.1, w)
  {
    var (a, b, c, d, f, g) := FirstGroup(s, p + 3, SkipSpace(s, p + 3)).value;
    SlicesFreeOf(s, w, p, a, b, c, d, f, g, g);
  }

  /** `preg_match_all` of the bullet pattern from `i`. */
  function BulletMatches(s: Bytes, i: nat): (r: seq<Groups>)
    requires i <= |s|
    decreases |s| - i
  {
    if i == |s| then []
    else match BulletAt(s, i)
      case Some((e, m)) => [m] + BulletMatches(s, e)
      case None => BulletMatches(s, i + 1)
  }

  lemma {:induction false} BulletMatchesFree(s: Bytes, i: nat, w: Bytes)
    requires i <= |s| && !ContainsCI(s, w)
    ensures forall m :: m in BulletMatches(s, i) ==> FreeOf(m, w)
    decreases |s| - i
  {
    if i < |s| {
      match BulletAt(s, i)
      case Some((e, m)) =>
        BulletAtFree(s, i, w);
        BulletMatchesFree(s, e, w);
      case None =>
        BulletMatchesFree(s, i + 1, w);
    }
  }

  /** Without the first byte of '•' there is no bullet match. */
  lemma {:induction false} BulletMatchesNone(s: Bytes, i: nat)
    requires i <= |s| && forall k :: i <= k < |s| ==> s[k] != Bullet[0]
    ensures BulletMatches(s, i) == []
    decreases |s| - i
  {
    if i < |s| {
      BulletMatchesNone(s, i + 1);
    }
  }

  /** In "•a, b, c" the groups are "a", "b" and "c": each lazy group stops at the first
      separator after it. */
  lemma BulletExampleGroups()
    ensures var s := Bullet + "a, b, c";
      FirstGroup(s, 3, SkipSpace(s, 3)) == Some((3, 4, 6, 7, 9, 10))
  {
    var s := Bullet + "a, b, c";
    assert |s| == 10 && s[3] == 'a' && s[4] == ',' && s[5] == ' ' && s[6] == 'b' && s[7] == ',' && s[8] == ' ' && s[9] == 'c';
    assert SkipSpace(s, 9) == 9;
    assert LineEnd(s, 9) == 10;
    assert LastGroup(s, 8, 9) == Some((9, 10));
    assert SkipSpace(s, 8) == 9;
    assert SepAt(s, 7) == Some(7);
    assert LazySecond(s, 7) == Some((7, 9, 10));
    assert SecondGroup(s, 5, 6) == Some((6, 7, 9, 10));
    assert SkipSpace(s, 5) == 6;
    assert SepAt(s, 4) == Some(4);
    assert LazyFirst(s, 4) == Some((4, 6, 7, 9, 10));
    assert SkipSpace(s, 3) == 3;
  }

  /** "•a, b, c" is one bullet match. */
  lemma BulletExampleMatch()
    ensures BulletMatches(Bullet + "a, b, c", 0) == [Groups(Bullet + "a, b, c", "a", "b", "c")]
  {
    var s := Bullet + "a, b, c";
    BulletExampleGroups();
    BulletExampleSlices();
    BulletAtSpans(s, 0, 3, 4, 6, 7, 9, 10);
    OneBulletMatch(s, Groups(s, "a", "b", "c"));
  }

  lemma BulletExampleSlices()
    ensures var s := Bullet + "a, b, c";
      |s| == 10 && MatchAt(s, 0, Bullet) && s[0..10] == s && s[3..4] == "a" && s[6..7] == "b" && s[9..10] == "c"
  {
    var s := Bullet + "a, b, c";
    assert s[0..3] == Bullet;
  }

  /** A bullet match is the bullet and the group boundaries, read as slices. */
  lemma BulletAtSpans(s: Bytes, p: nat, a: nat, b: nat, c: nat, d: nat, f: nat, g: nat)
    requires p <= |s| && MatchAt(s, p, Bullet) && p + 3 <= |s|
    requires FirstGroup(s, p + 3, SkipSpace(s, p + 3)) == Some((a, b, c, d, f, g))
    ensures BulletAt(s, p) == Some((g, Groups(s[p..g], s[a..b], s[c..d], s[f..g])))
  {
  }

  /** A bullet match at the start of the text that runs to its end is the only one. */
  lemma OneBulletMatch(s: Bytes, m: Groups)
    requires 0 < |s| && BulletAt(s, 0) == Some((|s|, m))
    ensures BulletMatches(s, 0) == [m]
  {
  }

  // ---------------------------------------------------------------------------
  // createWorkEntry and parseWorkEntries

  /** The array `createWorkEntry` returns. */
  datatype WorkEntry = WorkEntry(title: Bytes, company: Bytes, duration: Bytes, description: Bytes, kind: Bytes)

  /** `createWorkEntry`: the three fields trimmed, an empty description, type "work". */
  function CreateWorkEntry(title: Bytes, company: Bytes, duration: Bytes): (r: WorkEntry)
    ensures Trimmed(r.title) && Trimmed(r.company) && Trimmed(r.duration)
    ensures |r.title| <= |title| && |r.company| <= |company| && |r.duration| <= |duration|
    ensures r.description == "" && r.kind == "work"
  {
    WorkEntry(Trim(title), Trim(company), Trim(duration), "", "work")
  }

  /** What one structured match adds: an entry unless the raw title mentions "intern". */
  function StructuredEntry(m: Groups): seq<WorkEntry>
  {
    if ContainsCI(m.g2, "intern") then [] else [CreateWorkEntry(m.g2, m.g3, m.g1)]
  }

  /** What one bullet match adds: an entry unless the whole match mentions "intern". */
  function BulletEntry(m: Groups): seq<WorkEntry>
  {
    if ContainsCI(m.whole, "intern") then [] else [CreateWorkEntry(m.g1, m.g2, m.g3)]
  }

  /** The entries of `parseWorkEntries`: the structured ones, then the bullet ones. */
  function WorkEntries(text: Bytes): seq<WorkEntry>
  {
    Gather(StructuredEntry, StructuredMatches(text, 0)) + Gather(BulletEntry, BulletMatches(text, 0))
  }

  /** `parseWorkEntries`: two `foreach` loops append to `$entries`, first over the
      structured matches, then over the bullet matches; nothing is deduplicated. */
  method ParseWorkEntries(text: Bytes) returns (entries: seq<WorkEntry>)
    ensures entries == WorkEntries(text)
    ensures forall e :: e in entries ==> e.description == "" && e.kind == "work"
  {
    entries := AppendEach([], StructuredMatches(text, 0), StructuredEntry);
    assert entries == Gather(StructuredEntry, StructuredMatches(text, 0));
    entries := AppendEach(entries, BulletMatches(text, 0), BulletEntry);
    EntriesShape(text, "intern");
  }

  /** Every entry was made by `createWorkEntry` from the captures of one match, and the
      fields that come from a text without a word do not hold it. */
  lemma EntriesShape(text: Bytes, w: Bytes)
    ensures forall e :: e in WorkEntries(text) ==> e.description == "" && e.kind == "work"
    ensures !ContainsCI(text, w) ==> forall e :: e in WorkEntries(text) ==>
      !ContainsCI(e.title, w) && !ContainsCI(e.company, w) && !ContainsCI(e.duration, w)
  {
    var free := !ContainsCI(text, w);
    if free {
      StructuredMatchesFree(text, 0, w);
      BulletMatchesFree(text, 0, w);
    }
    GatheredEntriesShape(StructuredEntry, StructuredMatches(text, 0), w, free);
    GatheredEntriesShape(BulletEntry, BulletMatches(text, 0), w, free);
  }

  /** The entries gathered from matches free of a word are shaped and free of it too. */
  lemma GatheredEntriesShape(f: Groups -> seq<WorkEntry>, ms: seq<Groups>, w: Bytes, free: bool)
    requires f == StructuredEntry || f == BulletEntry
    requires free ==> forall m :: m in ms ==> FreeOf(m, w)
    ensures forall e :: e in Gather(f, ms) ==> e.description == "" && e.kind == "work"
    ensures free ==> forall e :: e in Gather(f, ms) ==>
      !ContainsCI(e.title, w) && !ContainsCI(e.company, w) && !ContainsCI(e.duration, w)
  {
    forall e | e in Gather(f, ms)
      ensures e.description == "" && e.kind == "work"
      ensures free ==> !ContainsCI(e.title, w) && !ContainsCI(e.company, w) && !ContainsCI(e.duration, w)
    {
      GatherMember(f, ms, e);
      var j :| 0 <= j < |ms| && e in f(ms[j]);
      var m := ms[j];
      if f == StructuredEntry {
        assert e == CreateWorkEntry(m.g2, m.g3, m.g1);
      } else {
        assert e == CreateWorkEntry(m.g1, m.g2, m.g3);
      }
      if free {
        assert m in ms;
        TrimKeepsAbsence(m.g1, w);
        TrimKeepsAbsence(m.g2, w);
        TrimKeepsAbsence(m.g3, w);
      }
    }
  }

  /** "•a, b, c" gives one entry: title "a", company "b", duration "c". */
  lemma BulletExampleEntry()
    ensures WorkEntries(Bullet + "a, b, c") == [WorkEntry("a", "b", "c", "", "work")]
  {
    var s := Bullet + "a, b, c";
    var m := Groups(s, "a", "b", "c");
    BulletExampleMatch();
    BulletExampleNoStructured();
    BulletExampleKept();
    assert [m][..0] == [];
    assert Gather(BulletEntry, [m]) == BulletEntry(m);
  }

  lemma BulletExampleNoStructured()
    ensures StructuredMatches(Bullet + "a, b, c", 0) == []
  {
    var s := Bullet + "a, b, c";
    assert forall k :: 0 <= k < |s| - 1 ==> !(IsLetter(s[k]) && IsLetter(s[k + 1]));
    StructuredMatchesNone(s, 0);
  }

  lemma BulletExampleKept()
    ensures BulletEntry(Groups(Bullet + "a, b, c", "a", "b", "c")) == [WorkEntry("a", "b", "c", "", "work")]
  {
    var s := Bullet + "a, b, c";
    assert forall k :: 0 <= k < |s| ==> Lower(s[k]) != 'i';
    ContainsCINeedsHead(s, "intern");
    TrimOfTrimmed("a");
    TrimOfTrimmed("b");
    TrimOfTrimmed("c");
  }

  // ---------------------------------------------------------------------------
  // getWorkExperience, normalizeWorkExperience and analyze

  /** The text `parseWorkEntries` receives, when the section is found. */
  function WorkText(text: Bytes): (r: Option<Bytes>)
    ensures r.Some? ==> !ContainsCI(r.value, "intern")
  {
    match ExperienceSection(text)
    case None => None
    case Some(w) =>
      DropInternLinesClean(w);
      Some(DropInternLines(w))
  }

  /** The entries `getWorkExperience` returns. */
  function WorkExperience(text: Bytes): seq<WorkEntry>
  {
    match WorkText(text)
    case Some(w) => if IsEmpty(w) then [] else WorkEntries(w)
    case None => []
  }

  /** `getWorkExperience`. */
  method GetWorkExperience(text: Bytes) returns (entries: seq<WorkEntry>)
    ensures entries == WorkExperience(text)
    ensures FirstMatchCI(text, "experience", 0).None? ==> entries == []
    ensures WorkText(text).Some? && IsEmpty(WorkText(text).value) ==> entries == []
  {
    entries := [];
    var section := ExperienceSection(text);
    if section.Some? {
      var workText := DropInternLines(section.value);
      if !IsEmpty(workText) {
        entries := ParseWorkEntries(workText);
      }
    }
  }

  /** No entry's title, company or duration mentions "intern", in any case: the lines
      that do were deleted before parsing. */
  lemma WorkExperienceNoIntern(text: Bytes)
    ensures forall e :: e in WorkExperience(text) ==>
      !ContainsCI(e.title, "intern") && !ContainsCI(e.company, "intern") && !ContainsCI(e.duration, "intern")
  {
    if WorkText(text).Some? {
      EntriesShape(WorkText(text).value, "intern");
    }
  }

  /** The record `normalizeWorkExperience` makes of an entry. */
  datatype WorkRecord = WorkRecord(company: Bytes, description: Bytes, duration: Bytes, technologies: Bytes, kind: Bytes)

  /** `normalizeWorkExperience`: `??` falls back only when a key is missing or null. Company,
      description and duration are always set by `createWorkEntry`, so they are copied;
      technologies is never set and becomes "Not specified"; the title is dropped. */
  function NormalizeWork(entries: seq<WorkEntry>): (r: seq<WorkRecord>)
    ensures |r| == |entries|
    ensures forall i :: 0 <= i < |r| ==>
      (r[i].company == entries[i].company && r[i].duration == entries[i].duration &&
       r[i].description == entries[i].description)
    ensures forall i :: 0 <= i < |r| ==> r[i].technologies == "Not specified" && r[i].kind == "work"
  {
    seq(|entries|, i requires 0 <= i < |entries| =>
      WorkRecord(entries[i].company, entries[i].description, entries[i].duration, "Not specified", "work"))
  }

  /** `analyze`. */
  method Analyze(text: Bytes) returns (records: seq<WorkRecord>)
    ensures records == NormalizeWork(WorkExperience(text))
    ensures forall r :: r in records ==>
      r.description == "" && r.technologies == "Not specified" && r.kind == "work" &&
      !ContainsCI(r.company, "intern") && !ContainsCI(r.duration, "intern")
  {
    var entries := GetWorkExperience(text);
    records := NormalizeWork(entries);
    WorkExperienceNoIntern(text);
    if WorkText(text).Some? {
      EntriesShape(WorkText(text).value, "intern");
    }
  }
}
