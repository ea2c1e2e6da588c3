/**
 * The project extractor `ProjectExp`. It drops the boilerplate in front of the
 * first section heading, isolates the projects section (or skips the first 30%
 * of the lines), splits bulleted, numbered and dashed items into candidates,
 * strips GitHub profile links from their descriptions, deduplicates them,
 * discards bare profile links and turns every remaining candidate into a
 * project record with a classification and a technology list.
 */
module ProjectExp {
  import opened PhpText
  import opened Patterns

  // ---------------------------------------------------------------------------
  // removeIrrelevantSections: preg_replace('/^.*?(?=(EDUCATION|EXPERIENCE|PROJECTS|SKILLS))/i', '', text)

  /** One of the four headings of the lookahead starts at `p`. */
  predicate HeadingAt(s: Bytes, p: nat) {
    MatchCI(s, p, "education") || MatchCI(s, p, "experience") || MatchCI(s, p, "projects") || MatchCI(s, p, "skills")
  }

  /** The first position in [i, e) where a heading starts. */
  function FirstHeading(s: Bytes, i: nat, e: nat): (r: Option<nat>)
    requires i <= e <= |s|
    ensures r.Some? ==> i <= r.value < e && HeadingAt(s, r.value)
    ensures r.Some? ==> forall q :: i <= q < r.value ==> !HeadingAt(s, q)
    ensures r.None? ==> forall q :: i <= q < e ==> !HeadingAt(s, q)
    decreases e - i
  {
    if i == e then None else if HeadingAt(s, i) then Some(i) else FirstHeading(s, i + 1, e)
  }

  /** `removeIrrelevantSections` as written. Without the m flag `^` holds only at the
      start of the text, and `.*?` cannot pass a "\n", so a match lies in the first line.
      The replacement is global: when the first line starts with a heading, the first
      match is empty, and the retry that follows an empty match (at the same place,
      but required to consume something) removes everything up to the next heading
      of the first line, the first heading included. */
  function RemoveIrrelevantSections(s: Bytes): (r: Bytes)
    ensures IsSuffix(r, s)
    ensures |s| - |r| <= LineEnd(s, 0)
    ensures (forall q :: 0 <= q < LineEnd(s, 0) ==> !HeadingAt(s, q)) ==> r == s
    ensures r != s ==> HeadingAt(r, 0)
  {
    var e := LineEnd(s, 0);
    match FirstHeading(s, 0, e)
    case None => s
    case Some(i) =>
      if i > 0 then
        HeadingSuffix(s, i);
        s[i..]
      else
        match FirstHeading(s, 1, e)
        case None => s
        case Some(j) =>
          HeadingSuffix(s, j);
          s[j..]
  }

  lemma HeadingSuffix(s: Bytes, i: nat)
    requires i <= |s| && HeadingAt(s, i)
    ensures HeadingAt(s[i..], 0)
  {
    MatchCISuffix(s, i, 0, "education");
    MatchCISuffix(s, i, 0, "experience");
    MatchCISuffix(s, i, 0, "projects");
    MatchCISuffix(s, i, 0, "skills");
  }

  /** No heading starts at `q` when the byte there cannot begin one. */
  lemma NoHeadingAt(s: Bytes, q: nat)
    requires q < |s| && Lower(s[q]) != 'e' && Lower(s[q]) != 'p' && Lower(s[q]) != 's'
    ensures !HeadingAt(s, q)
  {
    if MatchCI(s, q, "education") { MatchCIHead(s, q, "education"); }
    if MatchCI(s, q, "experience") { MatchCIHead(s, q, "experience"); }
    if MatchCI(s, q, "projects") { MatchCIHead(s, q, "projects"); }
    if MatchCI(s, q, "skills") { MatchCIHead(s, q, "skills"); }
  }

  /** When the first line starts with a heading and holds another one further on, the
      global replacement drops the leading heading too; the intended trim keeps the text. */
  lemma RemoveIrrelevantSectionsDropsLeadingHeading(s: Bytes, j: nat)
    requires 0 < j < LineEnd(s, 0) && HeadingAt(s, 0) && HeadingAt(s, j)
    ensures var r := RemoveIrrelevantSections(s); 0 < |s| - |r| <= j && HeadingAt(r, 0)
    ensures RemoveLeadingBoilerplate(s) == s
  {
    var e := LineEnd(s, 0);
    assert FirstHeading(s, 0, e) == Some(0);
    var k := FirstHeading(s, 1, e);
    assert k.Some? && k.value <= j;
    assert RemoveIrrelevantSections(s) == s[k.value..];
    assert RemoveLeadingBoilerplate(s) == s[0..];
  }

  const HeadingExample: Bytes := "EDUCATION SKILLS"

  /** "EDUCATION SKILLS" loses its first heading. */
  lemma HeadingExampleDropsHeading()
    ensures RemoveIrrelevantSections(HeadingExample) != HeadingExample
    ensures RemoveLeadingBoilerplate(HeadingExample) == HeadingExample
  {
    var s := HeadingExample;
    assert forall k :: 0 <= k < 9 ==> Lower(s[0 + k]) == "education"[k];
    assert forall k :: 0 <= k < 6 ==> Lower(s[10 + k]) == "skills"[k];
    assert LineEnd(s, 0) == 16;
    RemoveIrrelevantSectionsDropsLeadingHeading(s, 10);
  }

  /** What the heading trim evidently means: drop what precedes the first heading of the
      first line, and nothing when the text already starts with one. */
  function RemoveLeadingBoilerplate(s: Bytes): (r: Bytes)
    ensures IsSuffix(r, s)
    ensures |s| - |r| <= LineEnd(s, 0)
    ensures (forall q :: 0 <= q < LineEnd(s, 0) ==> !HeadingAt(s, q)) ==> r == s
    ensures r != s ==> HeadingAt(r, 0) && forall q :: 0 <= q < |s| - |r| ==> !HeadingAt(s, q)
  {
    match FirstHeading(s, 0, LineEnd(s, 0))
    case None => s
    case Some(i) =>
      HeadingSuffix(s, i);
      s[i..]
  }

  /** The intended trim can be applied twice without further effect. */
  lemma RemoveLeadingBoilerplateIdempotent(s: Bytes)
    ensures RemoveLeadingBoilerplate(RemoveLeadingBoilerplate(s)) == RemoveLeadingBoilerplate(s)
  {
    var r := RemoveLeadingBoilerplate(s);
    if r != s {
      assert HeadingAt(r, 0);
      assert r[0] != '\n' by {
        if MatchCI(r, 0, "education") { MatchCIHead(r, 0, "education"); }
        if MatchCI(r, 0, "experience") { MatchCIHead(r, 0, "experience"); }
        if MatchCI(r, 0, "projects") { MatchCIHead(r, 0, "projects"); }
        if MatchCI(r, 0, "skills") { MatchCIHead(r, 0, "skills"); }
      }
      assert FirstHeading(r, 0, LineEnd(r, 0)) == Some(0);
    }
  }

  // ---------------------------------------------------------------------------
  // extractProjectsSection and fallbackExtractProjects

  const ProjectsStops: seq<Bytes> := ["experience", "education", "skills", "employment", "internship"]
  const ProjectExperienceStops: seq<Bytes> := ["work", "education", "employment", "internship"]

  /** The rejection test `/(internship|employment|work experience)/i` on a capture. */
  predicate MentionsOtherSection(c: Bytes) {
    ContainsCI(c, "internship") || ContainsCI(c, "employment") || ContainsCI(c, "work experience")
  }

  /** One section pattern: its capture, unless the capture mentions another section. */
  function SectionText(s: Bytes, head: Bytes, stops: seq<Bytes>): (r: Option<Bytes>)
    requires |head| > 0
    ensures r.Some? <==> (SectionCapture(s, head, stops).Some? &&
      !MentionsOtherSection(s[SectionCapture(s, head, stops).value.0..SectionCapture(s, head, stops).value.1]))
    ensures r.Some? ==> Trimmed(r.value) && !MentionsOtherSection(r.value)
  {
    match SectionCapture(s, head, stops)
    case None => None
    case Some((c, e)) =>
      if MentionsOtherSection(s[c..e]) then None
      else
        TrimKeepsAbsence(s[c..e], "internship");
        TrimKeepsAbsence(s[c..e], "employment");
        TrimKeepsAbsence(s[c..e], "work experience");
        Some(Trim(s[c..e]))
  }

  /** `extractProjectsSection`: the PROJECTS pattern first, then PROJECT EXPERIENCE; the
      first acceptable trimmed capture, or nothing. */
  function ExtractProjectsSection(s: Bytes): (r: Option<Bytes>)
    ensures SectionText(s, "projects", ProjectsStops).Some? ==> r == SectionText(s, "projects", ProjectsStops)
    ensures SectionText(s, "projects", ProjectsStops).None? ==> r == SectionText(s, "project experience", ProjectExperienceStops)
    ensures r.Some? ==> Trimmed(r.value) && !MentionsOtherSection(r.value)
  {
    match SectionText(s, "projects", ProjectsStops)
    case Some(t) => Some(t)
    case None => SectionText(s, "project experience", ProjectExperienceStops)
  }

  /** `fallbackExtractProjects`: the lines after the first floor(30%) of them. */
  function FallbackExtractProjects(s: Bytes): (r: Bytes)
    ensures IsSuffix(r, s)
    ensures |Lines(s)| < 4 ==> r == s
  {
    var ls := Lines(s);
    JoinLinesSuffix(ls, (3 * |ls|) / 10);
    JoinLinesOfLines(s);
    assert ls[0..] == ls;
    JoinLines(ls[(3 * |ls|) / 10..])
  }

  lemma LineEndNoNewline(a: Bytes, t: Bytes)
    requires '\n' !in a
    requires |a| <= |t| && t[..|a|] == a && (|a| == |t| || t[|a|] == '\n')
    ensures LineEnd(t, 0) == |a|
  {
  }

  /** Splitting joined lines gives the lines back. */
  lemma {:induction false} LinesOfJoinLines(ls: seq<Bytes>)
    requires |ls| >= 1
    requires forall k :: 0 <= k < |ls| ==> '\n' !in ls[k]
    ensures Lines(JoinLines(ls)) == ls
  {
    var t := JoinLines(ls);
    var n := |ls[0]|;
    if |ls| == 1 {
      LineEndNoNewline(ls[0], t);
    } else {
      var rest := JoinLines(ls[1..]);
      assert t == ls[0] + "\n" + rest;
      assert t[n + 1..] == rest;
      LineEndNoNewline(ls[0], t);
      assert t[..n] == ls[0];
      LinesOfJoinLines(ls[1..]);
      assert Lines(t) == [t[..n]] + Lines(t[n + 1..]);
      assert ls == [ls[0]] + ls[1..];
    }
  }

  /** The fallback keeps exactly the lines after the first `(3n)/10` of them. */
  lemma FallbackDropsLeadingLines(s: Bytes)
    ensures Lines(FallbackExtractProjects(s)) == Lines(s)[(3 * |Lines(s)|) / 10..]
  {
    var ls := Lines(s);
    var k := (3 * |ls|) / 10;
    assert forall j :: 0 <= j < |ls[k..]| ==> ls[k..][j] == ls[k + j];
    LinesOfJoinLines(ls[k..]);
  }

  /** `extractProjectsSection(...) ?? fallbackExtractProjects(...)`: the fallback runs only
      when no section was accepted, so an empty accepted section stays empty. */
  function ProjectsText(s: Bytes): (r: Bytes)
    ensures ExtractProjectsSection(s).Some? ==> r == ExtractProjectsSection(s).value
    ensures ExtractProjectsSection(s).None? ==> IsSuffix(r, s)
  {
    match ExtractProjectsSection(s)
    case Some(t) => t
    case None => FallbackExtractProjects(s)
  }

  // ---------------------------------------------------------------------------
  // parseBulletPointProjects, step 1: erase contact lines with
  // preg_replace('/^\s*(name|contact|phone|email|github|portfolio)\s*[:.]?\s*.+$/im', '', text)

  /** The length of the contact keyword that starts at `a`, tried in pattern order. */
  function ContactWordAt(s: Bytes, a: nat): (r: Option<nat>)
    ensures r.Some? ==> a + r.value <= |s| && r.value > 0
  {
    if MatchCI(s, a, "name") then Some(4)
    else if MatchCI(s, a, "contact") then Some(7)
    else if MatchCI(s, a, "phone") then Some(5)
    else if MatchCI(s, a, "email") then Some(5)
    else if MatchCI(s, a, "github") then Some(6)
    else if MatchCI(s, a, "portfolio") then Some(9)
    else None
  }

  /** `\s*.+$` (multiline) from `j`: the `\s*` gives bytes back until `.+` can start, and
      `.+` then runs to the end of that line. */
  function RestOfLine(s: Bytes, j: nat): (r: Option<nat>)
    requires j <= |s|
    ensures r.Some? ==> j < r.value <= |s| && (r.value == |s| || s[r.value] == '\n')
  {
    match LineCharBackoff(s, j, SkipSpace(s, j))
    case None => None
    case Some(z) => Some(LineEnd(s, z))
  }

  /** `\s*[:.]?\s*.+$` after the keyword ended at `b`, with the first `\s*` stopped at `i`:
      `[:.]?` takes a colon or dot when it can and lets it go when that fails. */
  function ContactTail(s: Bytes, b: nat, i: nat): (r: Option<nat>)
    requires b <= i <= |s|
    ensures r.Some? ==> b < r.value <= |s| && (r.value == |s| || s[r.value] == '\n')
    decreases i - b
  {
    var withPunct := if i < |s| && (s[i] == ':' || s[i] == '.') then RestOfLine(s, i + 1) else None;
    if withPunct.Some? then withPunct
    else match RestOfLine(s, i)
      case Some(e) => Some(e)
      case None => if i == b then None else ContactTail(s, b, i - 1)
  }

  /** Where a contact-line match that starts at the line start `q` ends. */
  function ContactLineAt(s: Bytes, q: nat): (r: Option<nat>)
    requires q <= |s|
    ensures r.Some? ==> q < r.value <= |s| && (r.value == |s| || s[r.value] == '\n')
  {
    if !IsLineStart(s, q) then None
    else
      var a := SkipSpace(s, q);
      match ContactWordAt(s, a)
      case None => None
      case Some(n) => ContactTail(s, a + n, SkipSpace(s, a + n))
  }

  /** The global replacement from position `i` on. */
  function EraseContactLinesFrom(s: Bytes, i: nat): (r: Bytes)
    requires i <= |s|
    ensures |r| <= |s| - i
    decreases |s| - i
  {
    if i == |s| then []
    else match ContactLineAt(s, i)
      case Some(e) => EraseContactLinesFrom(s, e)
      case None => [s[i]] + EraseContactLinesFrom(s, i + 1)
  }

  function EraseContactLines(s: Bytes): (r: Bytes)
    ensures |r| <= |s|
  {
    EraseContactLinesFrom(s, 0)
  }

  /** Text with no contact line is left as it is. */
  lemma {:induction false} EraseContactLinesKeeps(s: Bytes, i: nat)
    requires i <= |s|
    requires forall q :: i <= q <= |s| ==> ContactLineAt(s, q).None?
    ensures EraseContactLinesFrom(s, i) == s[i..]
    decreases |s| - i
  {
    if i < |s| {
      EraseContactLinesKeeps(s, i + 1);
      assert s[i..] == [s[i]] + s[i + 1..];
    }
  }

  /** No contact-line match starts in `s[i..j]`. */
  predicate NoContactLineIn(s: Bytes, i: nat, j: nat)
    requires i <= j <= |s|
    decreases j - i
  {
    i == j || (ContactLineAt(s, i).None? && NoContactLineIn(s, i + 1, j))
  }

  /** Away from line starts no contact line can start. */
  lemma {:induction false} InsideLineNoContact(s: Bytes, i: nat, j: nat)
    requires 0 < i <= j <= |s|
    requires forall k :: i - 1 <= k < j - 1 ==> s[k] != '\n'
    ensures NoContactLineIn(s, i, j)
    decreases j - i
  {
    if i < j {
      InsideLineNoContact(s, i + 1, j);
    }
  }

  /** A stretch where no contact line starts is copied as it is. */
  lemma {:induction false} EraseContactLinesCopies(s: Bytes, i: nat, j: nat)
    requires i <= j <= |s| && NoContactLineIn(s, i, j)
    ensures EraseContactLinesFrom(s, i) == s[i..j] + EraseContactLinesFrom(s, j)
    decreases j - i
  {
    if i < j {
      EraseContactLinesCopies(s, i + 1, j);
      EraseContactLinesCopy(s, i);
      ConsSlice(s, i, j);
      AppendAssoc([s[i]], s[i + 1..j], EraseContactLinesFrom(s, j));
    }
  }

  lemma EraseContactLinesCopy(s: Bytes, i: nat)
    requires i < |s| && ContactLineAt(s, i).None?
    ensures EraseContactLinesFrom(s, i) == [s[i]] + EraseContactLinesFrom(s, i + 1)
  {
  }

  /** A line at whose start no contact line matches is kept whole, up to its "\n". */
  lemma NonContactLineKept(s: Bytes, q: nat)
    requires q <= |s| && ContactLineAt(s, q).None?
    ensures EraseContactLinesFrom(s, q) == s[q..LineEnd(s, q)] + EraseContactLinesFrom(s, LineEnd(s, q))
  {
    if q < LineEnd(s, q) {
      InsideLineNoContact(s, q + 1, LineEnd(s, q));
    }
    EraseContactLinesCopies(s, q, LineEnd(s, q));
  }

  /** The line from `q` starts, after blanks, with a contact keyword, and after the keyword,
      blanks and an optional ':' or '.' some text follows on the same line. */
  predicate ContactLed(s: Bytes, q: nat)
    requires q <= |s|
  {
    var a := SkipSpace(s, q);
    a < |s| && ContactWordAt(s, a).Some? &&
    var b := SkipSpace(s, a + ContactWordAt(s, a).value);
    b < |s| &&
    SkipSpace(s, if s[b] == ':' || s[b] == '.' then b + 1 else b) < LineEnd(s, q)
  }

  /** From any position of a line, the line ends at the same place. */
  lemma LineEndSame(s: Bytes, q: nat, c: nat)
    requires q <= |s| && q <= c <= LineEnd(s, q)
    ensures LineEnd(s, c) == LineEnd(s, q)
  {
  }

  /** A contact-led line that starts at a line start is erased up to its "\n", which stays. */
  lemma ContactLineErased(s: Bytes, q: nat)
    requires q <= |s| && IsLineStart(s, q) && ContactLed(s, q)
    ensures ContactLineAt(s, q) == Some(LineEnd(s, q))
    ensures EraseContactLinesFrom(s, q) == EraseContactLinesFrom(s, LineEnd(s, q))
  {
    var a := SkipSpace(s, q);
    var n := ContactWordAt(s, a).value;
    var b := SkipSpace(s, a + n);
    var c := SkipSpace(s, if s[b] == ':' || s[b] == '.' then b + 1 else b);
    LineEndSame(s, q, c);
    if s[b] == ':' || s[b] == '.' {
      assert LineCharBackoff(s, b + 1, c) == Some(c);
      assert RestOfLine(s, b + 1) == Some(LineEnd(s, q));
    } else {
      assert c == b;
      assert LineCharBackoff(s, b, b) == Some(b);
      assert RestOfLine(s, b) == Some(LineEnd(s, q));
    }
    assert ContactTail(s, a + n, b) == Some(LineEnd(s, q));
  }

  const ContactExample: Bytes := "Email: x\nA"

  lemma ContactExampleKeyword()
    ensures ContactWordAt(ContactExample, 0) == Some(5)
  {
    var s := ContactExample;
    assert MatchCI(s, 0, "email") by { MatchCILower(s, 0, "email"); }
    if MatchCI(s, 0, "name") { MatchCIHead(s, 0, "name"); }
    if MatchCI(s, 0, "contact") { MatchCIHead(s, 0, "contact"); }
    if MatchCI(s, 0, "phone") { MatchCIHead(s, 0, "phone"); }
  }

  lemma ContactExampleLine()
    ensures RestOfLine(ContactExample, 6) == Some(8)
  {
    var s := ContactExample;
    assert SkipSpace(s, 6) == 7;
    assert LineEnd(s, 7) == 8;
    assert LineCharBackoff(s, 6, 7) == Some(7);
  }

  lemma ContactExampleMatch()
    ensures ContactLineAt(ContactExample, 0) == Some(8)
  {
    ContactExampleKeyword();
    ContactExampleLine();
    assert SkipSpace(ContactExample, 0) == 0;
    assert SkipSpace(ContactExample, 5) == 5;
    assert ContactTail(ContactExample, 5, 5) == Some(8);
  }

  lemma ContactExampleRest()
    ensures forall q :: 8 <= q <= |ContactExample| ==> ContactLineAt(ContactExample, q).None?
  {
    var s := ContactExample;
    forall q | 8 <= q <= |s|
      ensures ContactLineAt(s, q).None?
    {
      if IsLineStart(s, q) {
        assert q == 9;
        assert SkipSpace(s, 9) == 9;
        NoContactWord(s, 9);
      }
    }
  }

  /** A contact line at the start of the text is erased up to its end of line, which stays. */
  lemma EraseContactLinesExample()
    ensures EraseContactLines(ContactExample) == "\nA"
  {
    ContactExampleMatch();
    ContactExampleRest();
    EraseContactLinesKeeps(ContactExample, 8);
    assert EraseContactLinesFrom(ContactExample, 0) == EraseContactLinesFrom(ContactExample, 8);
    assert ContactExample[8..] == "\nA";
  }

  lemma NoContactWord(s: Bytes, a: nat)
    requires a < |s| && Lower(s[a]) !in "ncpeg"
    ensures ContactWordAt(s, a).None?
  {
    if MatchCI(s, a, "name") { MatchCIHead(s, a, "name"); }
    if MatchCI(s, a, "contact") { MatchCIHead(s, a, "contact"); }
    if MatchCI(s, a, "phone") { MatchCIHead(s, a, "phone"); }
    if MatchCI(s, a, "email") { MatchCIHead(s, a, "email"); }
    if MatchCI(s, a, "github") { MatchCIHead(s, a, "github"); }
    if MatchCI(s, a, "portfolio") { MatchCIHead(s, a, "portfolio"); }
  }

  // ---------------------------------------------------------------------------
  // parseBulletPointProjects, step 2: preg_split('/(?:^|\n)(?:â€¢|\d+\.|\-)\s*/', text, -1, PREG_SPLIT_NO_EMPTY)

  /** The literal `â€¢` of the pattern in UTF-8: C3 A2, E2 82 AC, C2 A2 (a mis-decoded '•'). */
  const Mojibake: Bytes := ['\U{C3}', '\U{A2}', '\U{E2}', '\U{82}', '\U{AC}', '\U{C2}', '\U{A2}']

  /** Where a run of digits starting at `p` ends. */
  function DigitRunEnd(s: Bytes, p: nat): (r: nat)
    requires p <= |s|
    ensures p <= r <= |s| && (r == |s| || !IsDigit(s[r]))
    ensures forall k :: p <= k < r ==> IsDigit(s[k])
    decreases |s| - p
  {
    if p < |s| && IsDigit(s[p]) then DigitRunEnd(s, p + 1) else p
  }

  /** `(?:â€¢|\d+\.|\-)` at `p`: where the item marker ends. */
  function MarkerEnd(s: Bytes, p: nat): (r: Option<nat>)
    requires p <= |s|
    ensures r.Some? ==> p < r.value <= |s|
  {
    if MatchAt(s, p, Mojibake) then Some(p + 7)
    else
      var d := DigitRunEnd(s, p);
      if d > p && d < |s| && s[d] == '.' then Some(d + 1)
      else if p < |s| && s[p] == '-' then Some(p + 1)
      else None
  }

  /** Where a delimiter that starts at `q` ends: `^` (only at 0) or "\n", a marker, `\s*`. */
  function DelimAt(s: Bytes, q: nat): (r: Option<nat>)
    requires q <= |s|
    ensures r.Some? ==> q < r.value <= |s|
  {
    var atStart := if q == 0 then MarkerEnd(s, 0) else None;
    if atStart.Some? then Some(SkipSpace(s, atStart.value))
    else if q < |s| && s[q] == '\n' then
      match MarkerEnd(s, q + 1)
      case Some(m) => Some(SkipSpace(s, m))
      case None => None
    else None
  }

  /** The pieces between delimiters from `i` on, the current piece having begun at `last`;
      empty pieces are dropped. */
  function SplitEntriesFrom(s: Bytes, last: nat, i: nat): (r: seq<Bytes>)
    requires last <= i <= |s|
    ensures forall k :: 0 <= k < |r| ==> r[k] != []
    decreases |s| - i
  {
    if i == |s| then (if last < |s| then [s[last..]] else [])
    else match DelimAt(s, i)
      case Some(e) => (if last < i then [s[last..i]] else []) + SplitEntriesFrom(s, e, e)
      case None => SplitEntriesFrom(s, last, i + 1)
  }

  function SplitEntries(s: Bytes): (r: seq<Bytes>)
    ensures forall k :: 0 <= k < |r| ==> r[k] != []
  {
    SplitEntriesFrom(s, 0, 0)
  }

  /** Text without any delimiter is one item, or none when it is empty. */
  lemma {:induction false} SplitEntriesNoDelimiter(s: Bytes, last: nat, i: nat)
    requires last <= i <= |s|
    requires forall q :: i <= q <= |s| ==> DelimAt(s, q).None?
    ensures SplitEntriesFrom(s, last, i) == if last < |s| then [s[last..]] else []
    decreases |s| - i
  {
    if i < |s| {
      SplitEntriesNoDelimiter(s, last, i + 1);
    }
  }

  /** `preg_replace` of the delimiter pattern by nothing, from position `i` on. */
  function EraseDelimitersFrom(s: Bytes, i: nat): (r: Bytes)
    requires i <= |s|
    ensures |r| <= |s| - i
    decreases |s| - i
  {
    if i == |s| then []
    else match DelimAt(s, i)
      case Some(e) => EraseDelimitersFrom(s, e)
      case None => [s[i]] + EraseDelimitersFrom(s, i + 1)
  }

  /** One step of the split at a delimiter that runs from `i` to `e`. */
  lemma SplitAtDelimiter(s: Bytes, last: nat, i: nat, e: nat)
    requires last <= i < |s| && DelimAt(s, i) == Some(e)
    ensures SplitEntriesFrom(s, last, i) ==
      (if last < i then [s[last..i]] else []) + SplitEntriesFrom(s, e, e)
    ensures EraseDelimitersFrom(s, i) == EraseDelimitersFrom(s, e)
  {
  }

  lemma SplitPastByte(s: Bytes, last: nat, i: nat)
    requires last <= i < |s| && DelimAt(s, i).None?
    ensures SplitEntriesFrom(s, last, i) == SplitEntriesFrom(s, last, i + 1)
    ensures EraseDelimitersFrom(s, i) == [s[i]] + EraseDelimitersFrom(s, i + 1)
  {
  }

  /** The items put back together are the text with its delimiters removed: the split
      loses the delimiters and nothing else. */
  lemma {:induction false} SplitEntriesFromJoin(s: Bytes, last: nat, i: nat)
    requires last <= i <= |s|
    ensures Concat(SplitEntriesFrom(s, last, i)) == s[last..i] + EraseDelimitersFrom(s, i)
    decreases |s| - i
  {
    if i == |s| {
      if last < |s| {
        ConcatOne(s[last..]);
      }
    } else {
      var last2, i2 := JoinStep(s, last, i);
      SplitEntriesFromJoin(s, last2, i2);
    }
  }

  /** One step of the scan: where it goes on from, and that the join there gives the
      join here. */
  lemma JoinStep(s: Bytes, last: nat, i: nat) returns (last2: nat, i2: nat)
    requires last <= i < |s|
    ensures last2 <= i2 <= |s| && i < i2
    ensures Concat(SplitEntriesFrom(s, last2, i2)) == s[last2..i2] + EraseDelimitersFrom(s, i2) ==>
      Concat(SplitEntriesFrom(s, last, i)) == s[last..i] + EraseDelimitersFrom(s, i)
  {
    if DelimAt(s, i).Some? {
      var e := DelimAt(s, i).value;
      last2, i2 := e, e;
      if Concat(SplitEntriesFrom(s, e, e)) == s[e..e] + EraseDelimitersFrom(s, e) {
        assert s[e..e] + EraseDelimitersFrom(s, e) == EraseDelimitersFrom(s, e);
        JoinAtDelimiter(s, last, i, e);
      }
    } else {
      last2, i2 := last, i + 1;
      if Concat(SplitEntriesFrom(s, last, i + 1)) == s[last..i + 1] + EraseDelimitersFrom(s, i + 1) {
        JoinPastByte(s, last, i);
      }
    }
  }

  lemma JoinAtDelimiter(s: Bytes, last: nat, i: nat, e: nat)
    requires last <= i < |s| && DelimAt(s, i) == Some(e)
    requires Concat(SplitEntriesFrom(s, e, e)) == EraseDelimitersFrom(s, e)
    ensures Concat(SplitEntriesFrom(s, last, i)) == s[last..i] + EraseDelimitersFrom(s, i)
  {
    SplitAtDelimiter(s, last, i, e);
    var rest := SplitEntriesFrom(s, e, e);
    if last < i {
      ConcatCons(s[last..i], rest);
    } else {
      assert [] + rest == rest;
    }
  }

  lemma JoinPastByte(s: Bytes, last: nat, i: nat)
    requires last <= i < |s| && DelimAt(s, i).None?
    requires Concat(SplitEntriesFrom(s, last, i + 1)) == s[last..i + 1] + EraseDelimitersFrom(s, i + 1)
    ensures Concat(SplitEntriesFrom(s, last, i)) == s[last..i] + EraseDelimitersFrom(s, i)
  {
    SplitPastByte(s, last, i);
    var rest := EraseDelimitersFrom(s, i + 1);
    calc {
      Concat(SplitEntriesFrom(s, last, i));
      s[last..i + 1] + rest;
      { assert s[last..i + 1] == s[last..i] + [s[i]]; }
      (s[last..i] + [s[i]]) + rest;
      s[last..i] + ([s[i]] + rest);
    }
  }

  lemma SplitEntriesJoin(s: Bytes)
    ensures Concat(SplitEntries(s)) == EraseDelimitersFrom(s, 0)
  {
    SplitEntriesFromJoin(s, 0, 0);
  }

  /** No delimiter starts in `s[a..b]`. */
  predicate NoDelimiterIn(s: Bytes, a: nat, b: nat)
    requires a <= b <= |s|
  {
    forall q :: a <= q < b ==> DelimAt(s, q).None?
  }

  /** A delimiter ends at `a`. */
  ghost predicate AfterDelimiter(s: Bytes, a: nat) {
    exists q: nat :: q < a <= |s| && DelimAt(s, q) == Some(a)
  }

  /** Each item is a stretch of the text without a delimiter in it, which starts where the
      scan began or right after a delimiter and ends at a delimiter or at the end. */
  lemma {:induction false} SplitEntriesFromSlices(s: Bytes, last: nat, i: nat)
    requires last <= i <= |s| && NoDelimiterIn(s, last, i)
    ensures forall t :: t in SplitEntriesFrom(s, last, i) ==>
      exists a: nat, b: nat :: last <= a < b <= |s| && t == s[a..b] && NoDelimiterIn(s, a, b) &&
        (a == last || AfterDelimiter(s, a)) && (b == |s| || DelimAt(s, b).Some?)
    decreases |s| - i
  {
    if i < |s| {
      match DelimAt(s, i)
      case Some(e) =>
        SplitEntriesFromSlices(s, e, e);
        assert AfterDelimiter(s, e);
      case None =>
        SplitEntriesFromSlices(s, last, i + 1);
    }
  }

  lemma SplitEntriesSlices(s: Bytes)
    ensures forall t :: t in SplitEntries(s) ==>
      exists a: nat, b: nat :: a < b <= |s| && t == s[a..b] && NoDelimiterIn(s, a, b) &&
        (a == 0 || AfterDelimiter(s, a)) && (b == |s| || DelimAt(s, b).Some?)
  {
    SplitEntriesFromSlices(s, 0, 0);
  }

  // ---------------------------------------------------------------------------
  // parseBulletPointProjects, step 3: one candidate per item

  /** A project candidate as `createProject` builds it. */
  datatype Candidate = Candidate(name: Bytes, description: Bytes, github: Option<Bytes>, kind: Bytes)

  /** `createProject`: trimmed fields, and a github field only for a truthy link. */
  function CreateProject(name: Bytes, description: Bytes, github: Option<Bytes>): (c: Candidate)
    ensures Trimmed(c.name) && Trimmed(c.description) && c.kind == "project"
    ensures c.github.Some? <==> github.Some? && !IsEmpty(github.value)
    ensures c.github.Some? ==> Trimmed(c.github.value)
  {
    Candidate(Trim(name), Trim(description),
      if github.Some? && !IsEmpty(github.value) then Some(Trim(github.value)) else None,
      "project")
  }

  /** `https?://` (case-insensitive) at `p`: where it ends. */
  function SchemeEnd(s: Bytes, p: nat): (r: Option<nat>)
    ensures r.Some? ==> p + 7 <= r.value <= |s|
  {
    if MatchCI(s, p, "https://") then Some(p + 8)
    else if MatchCI(s, p, "http://") then Some(p + 7)
    else None
  }

  /** Where a run of bytes other than whitespace starting at `p` ends. */
  function NonSpaceEnd(s: Bytes, p: nat): (r: nat)
    requires p <= |s|
    ensures p <= r <= |s| && (r == |s| || IsSpace(s[r]))
    ensures forall k :: p <= k < r ==> !IsSpace(s[k])
    decreases |s| - p
  {
    if p < |s| && !IsSpace(s[p]) then NonSpaceEnd(s, p + 1) else p
  }

  /** `/^https?:\/\/[^\s]+$/i`: the item is a bare link. */
  predicate IsBareUrl(e: Bytes) {
    match SchemeEnd(e, 0)
    case None => false
    case Some(u) => NonSpaceEnd(e, u) > u && AtDollar(e, NonSpaceEnd(e, u))
  }

  /** `(www\.)?github\.com\/` (case-insensitive) at `u`: where it ends. When "www." is
      present but the rest fails, dropping it cannot help, as 'w' is not 'g'. */
  function GithubHostEnd(s: Bytes, u: nat): (v: Option<nat>)
    ensures v.Some? ==> u + 11 <= v.value <= |s| && MatchCI(s, v.value - 11, "github.com/")
  {
    if MatchCI(s, u, "www.github.com/") then
      var w: Bytes := "www.github.com/";
      assert w[4..] == "github.com/";
      assert forall k :: 0 <= k < 11 ==> Lower(s[u + 4 + k]) == w[4 + k] == w[4..][k];
      Some(u + 15)
    else if MatchCI(s, u, "github.com/") then Some(u + 11)
    else None
  }

  /** `https?:\/\/(?:www\.)?github\.com\/\S+$` at `m`. */
  predicate GithubLinkToEnd(s: Bytes, m: nat)
    requires m <= |s|
  {
    match SchemeEnd(s, m)
    case None => false
    case Some(u) =>
      match GithubHostEnd(s, u)
      case None => false
      case Some(v) => NonSpaceEnd(s, v) > v && AtDollar(s, NonSpaceEnd(s, v))
  }

  /** `^(.+?)\s+(LINK)$` with the lazy name grown to `n`: the smallest end of the name
      after which whitespace and a GitHub link run to the end. */
  function GithubSplitFrom(e: Bytes, n: nat): (r: Option<nat>)
    requires 0 < n <= |e|
    ensures r.Some? ==> n <= r.value < |e| && IsSpace(e[r.value]) && GithubLinkToEnd(e, SkipSpace(e, r.value))
    ensures r.Some? ==> forall k :: n <= k < r.value ==> e[k] != '\n'
    decreases |e| - n
  {
    if n < |e| && IsSpace(e[n]) && GithubLinkToEnd(e, SkipSpace(e, n)) then Some(n)
    else if n < |e| && e[n] != '\n' then GithubSplitFrom(e, n + 1)
    else None
  }

  function GithubSplit(e: Bytes): (r: Option<nat>)
    ensures r.Some? ==> 0 < r.value < |e| && IsSpace(e[r.value]) && GithubLinkToEnd(e, SkipSpace(e, r.value))
    ensures r.Some? ==> forall k :: 0 <= k < r.value ==> e[k] != '\n'
  {
    if |e| > 0 && e[0] != '\n' then GithubSplitFrom(e, 1) else None
  }

  predicate IsNameStop(c: char) { c == '\n' || c == ':' || c == '-' }

  /** `^([^\n:-]+?)\s*[:-]\s*(.+)` with the s flag and the lazy name grown to `n`:
      (end of the name, start of the description). */
  function ColonSplitFrom(e: Bytes, n: nat): (r: Option<(nat, nat)>)
    requires 0 < n <= |e|
    ensures r.Some? ==> n <= r.value.0 < r.value.1 < |e|
    ensures r.Some? ==> forall k :: n <= k < r.value.0 ==> !IsNameStop(e[k])
    ensures r.Some? ==>
      var d := SkipSpace(e, r.value.0);
      d < r.value.1 && (e[d] == ':' || e[d] == '-')
    decreases |e| - n
  {
    var d := SkipSpace(e, n);
    if d + 1 < |e| && (e[d] == ':' || e[d] == '-') then
      var k := SkipSpace(e, d + 1);
      Some((n, if k < |e| then k else |e| - 1))
    else if n < |e| && !IsNameStop(e[n]) then ColonSplitFrom(e, n + 1)
    else None
  }

  function ColonSplit(e: Bytes): (r: Option<(nat, nat)>)
    ensures r.Some? ==> 0 < r.value.0 < r.value.1 < |e|
    ensures r.Some? ==> forall k :: 0 <= k < r.value.0 ==> !IsNameStop(e[k])
    ensures r.Some? ==>
      var d := SkipSpace(e, r.value.0);
      d < r.value.1 && (e[d] == ':' || e[d] == '-')
  {
    if |e| > 0 && !IsNameStop(e[0]) then ColonSplitFrom(e, 1) else None
  }

  /** The body of the item loop: the candidate an item yields, if any. */
  function EntryCandidate(item: Bytes): (r: Option<Candidate>)
    ensures r.None? <==> IsEmpty(Trim(item)) || IsBareUrl(Trim(item))
    ensures r.Some? ==> r.value.kind == "project" && Trimmed(r.value.name) && Trimmed(r.value.description)
    ensures r.Some? ==> r.value.name != []
    ensures r.Some? && r.value.github.Some? ==>
      r.value.description == [] && GithubSplit(Trim(item)).Some?
  {
    var e := Trim(item);
    if IsEmpty(e) || IsBareUrl(e) then None
    else
      TrimNotEmpty(e, 0);
      match GithubSplit(e)
      case Some(n) =>
        TrimNotEmpty(e[..n], 0);
        Some(CreateProject(e[..n], "", Some(e[SkipSpace(e, n)..])))
      case None =>
        match ColonSplit(e)
        case Some((n, k)) =>
          TrimNotEmpty(e[..n], 0);
          Some(CreateProject(e[..n], e[k..], None))
        case None => Some(CreateProject(e, "", None))
  }

  /** A link that runs to the end of a trimmed text is itself trimmed and not empty. */
  lemma GithubLinkTrimmed(e: Bytes, m: nat)
    requires m <= |e| && GithubLinkToEnd(e, m) && Trimmed(e)
    ensures !IsEmpty(e[m..]) && Trimmed(e[m..])
  {
    var link := e[m..];
    if MatchCI(e, m, "https://") {
      MatchCIHead(e, m, "https://");
    } else {
      MatchCIHead(e, m, "http://");
    }
    assert link[0] == e[m];
    assert link[|link| - 1] == e[|e| - 1];
  }

  /** What each shape of item turns into: a name followed by a GitHub link gives that
      name and the link; otherwise a name, ':' or '-' and a text give that name and
      that text as the description; otherwise the whole item is the name. */
  lemma EntryCandidateFields(item: Bytes)
    requires !IsEmpty(Trim(item)) && !IsBareUrl(Trim(item))
    ensures var e := Trim(item);
      GithubSplit(e).Some? ==>
        var n := GithubSplit(e).value;
        EntryCandidate(item) == Some(Candidate(Trim(e[..n]), [], Some(e[SkipSpace(e, n)..]), "project"))
    ensures var e := Trim(item);
      GithubSplit(e).None? && ColonSplit(e).Some? ==>
        var n, k := ColonSplit(e).value.0, ColonSplit(e).value.1;
        EntryCandidate(item) == Some(Candidate(Trim(e[..n]), Trim(e[k..]), None, "project"))
    ensures var e := Trim(item);
      GithubSplit(e).None? && ColonSplit(e).None? ==>
        EntryCandidate(item) == Some(Candidate(e, [], None, "project"))
  {
    var e := Trim(item);
    TrimIdempotent(item);
    assert Trim("") == "";
    if GithubSplit(e).Some? {
      var m := SkipSpace(e, GithubSplit(e).value);
      GithubLinkTrimmed(e, m);
      TrimOfTrimmed(e[m..]);
    }
  }

  /** The candidates the items yield, in order. */
  function Candidates(items: seq<Bytes>): seq<Candidate>
  {
    Gather(CandidateOf, items)
  }

  /** At most one candidate per item; every candidate has type 'project', a non-empty
      trimmed name and a trimmed description. */
  lemma {:induction false} CandidatesShape(items: seq<Bytes>)
    ensures |Candidates(items)| <= |items|
    ensures forall c :: c in Candidates(items) ==>
      c.kind == "project" && c.name != [] && Trimmed(c.name) && Trimmed(c.description)
  {
    if items != [] {
      CandidatesShape(items[..|items| - 1]);
      var _ := CandidateOf(items[|items| - 1]);
    }
  }

  /** The candidate of one item, as a list of zero or one. */
  function CandidateOf(item: Bytes): (r: seq<Candidate>)
    ensures |r| <= 1
    ensures |r| == 1 <==> EntryCandidate(item).Some?
    ensures |r| == 1 ==> r[0] == EntryCandidate(item).value
  {
    match EntryCandidate(item)
    case Some(c) => [c]
    case None => []
  }

  /** `parseBulletPointProjects`: appends the candidates of the items of `text` to
      `projects` (the by-reference array of the source). */
  method ParseBulletPointProjects(text: Bytes, projects: seq<Candidate>) returns (out: seq<Candidate>)
    ensures out == projects + Candidates(SplitEntries(EraseContactLines(text)))
  {
    var items := SplitEntries(EraseContactLines(text));
    out := AppendEach(projects, items, CandidateOf);
  }

  // ---------------------------------------------------------------------------
  // cleanDescription: trim(preg_replace('/\bhttps?:\/\/(www\.)?github\.com\/[a-z0-9_-]+\/?\b/i', '', d))

  /** `[a-z0-9_-]` with the i flag. */
  predicate IsSlugByte(c: char) { IsWord(c) || c == '-' }

  /** Where a run of slug bytes starting at `p` ends. */
  function SlugRunEnd(s: Bytes, p: nat): (r: nat)
    requires p <= |s|
    ensures p <= r <= |s| && (r == |s| || !IsSlugByte(s[r]))
    ensures forall k :: p <= k < r ==> IsSlugByte(s[k])
    decreases |s| - p
  {
    if p < |s| && IsSlugByte(s[p]) then SlugRunEnd(s, p + 1) else p
  }

  /** `\/?\b` after the slug `[a-z0-9_-]+` has been cut back to end at `r`: the '/' is taken
      when a word boundary follows it, else the boundary must hold at `r`; failing both,
      the slug gives back a byte. */
  function SlugTail(s: Bytes, v: nat, r: nat): (e: Option<nat>)
    requires v < r <= |s|
    ensures e.Some? ==> v < e.value <= |s| && IsBoundary(s, e.value)
    decreases r - v
  {
    if r < |s| && s[r] == '/' && IsBoundary(s, r + 1) then Some(r + 1)
    else if IsBoundary(s, r) then Some(r)
    else if r == v + 1 then None
    else SlugTail(s, v, r - 1)
  }

  /** Where a GitHub profile link that starts at `p` ends, if one does. */
  function ProfileLinkAt(s: Bytes, p: nat): (e: Option<nat>)
    requires p <= |s|
    ensures e.Some? ==> p < e.value <= |s|
    ensures e.Some? ==> ContainsCI(s, "github.com/")
  {
    if !IsBoundary(s, p) then None
    else match SchemeEnd(s, p)
      case None => None
      case Some(u) =>
        match GithubHostEnd(s, u)
        case None => None
        case Some(v) =>
          assert MatchCI(s, v - 11, "github.com/");
          var m := SlugRunEnd(s, v);
          if m == v then None else SlugTail(s, v, m)
  }

  /** The global replacement from position `i` on (the matches are never empty). */
  function EraseProfileLinksFrom(s: Bytes, i: nat): (r: Bytes)
    requires i <= |s|
    ensures |r| <= |s| - i
    decreases |s| - i
  {
    if i == |s| then []
    else match ProfileLinkAt(s, i)
      case Some(e) => EraseProfileLinksFrom(s, e)
      case None => [s[i]] + EraseProfileLinksFrom(s, i + 1)
  }

  /** `cleanDescription`. */
  function CleanDescription(d: Bytes): (r: Bytes)
    ensures Trimmed(r) && |r| <= |d|
  {
    Trim(EraseProfileLinksFrom(d, 0))
  }

  lemma {:induction false} EraseProfileLinksKeeps(s: Bytes, i: nat)
    requires i <= |s|
    requires forall q :: i <= q <= |s| ==> ProfileLinkAt(s, q).None?
    ensures EraseProfileLinksFrom(s, i) == s[i..]
    decreases |s| - i
  {
    if i < |s| {
      EraseProfileLinksKeeps(s, i + 1);
      assert s[i..] == [s[i]] + s[i + 1..];
    }
  }

  lemma EraseProfileLinksCopy(s: Bytes, i: nat)
    requires i < |s| && ProfileLinkAt(s, i).None?
    ensures EraseProfileLinksFrom(s, i) == [s[i]] + EraseProfileLinksFrom(s, i + 1)
  {
  }

  /** No profile link starts in `s[i..j]`. */
  predicate NoProfileLinkIn(s: Bytes, i: nat, j: nat)
    requires i <= j <= |s|
    decreases j - i
  {
    i == j || (ProfileLinkAt(s, i).None? && NoProfileLinkIn(s, i + 1, j))
  }

  lemma {:induction false} NoProfileLinkInAt(s: Bytes, i: nat, j: nat, p: nat)
    requires i <= p < j <= |s| && NoProfileLinkIn(s, i, j)
    ensures ProfileLinkAt(s, p).None?
    decreases p - i
  {
    if i < p {
      NoProfileLinkInAt(s, i + 1, j, p);
    }
  }

  /** A stretch where no link starts is copied as it is. */
  lemma {:induction false} EraseProfileLinksCopies(s: Bytes, i: nat, j: nat)
    requires i <= j <= |s| && NoProfileLinkIn(s, i, j)
    ensures EraseProfileLinksFrom(s, i) == s[i..j] + EraseProfileLinksFrom(s, j)
    decreases j - i
  {
    if i < j {
      EraseProfileLinksCopies(s, i + 1, j);
      EraseProfileLinksCopy(s, i);
      var rest := EraseProfileLinksFrom(s, j);
      calc {
        EraseProfileLinksFrom(s, i);
        [s[i]] + (s[i + 1..j] + rest);
        ([s[i]] + s[i + 1..j]) + rest;
        { assert [s[i]] + s[i + 1..j] == s[i..j]; }
        s[i..j] + rest;
      }
    }
  }

  /** A profile link inside a description is cut out and the text around it is kept:
      when the only link runs from `p` to `e`, the result is the trimmed join of the text
      before and after it. */
  lemma CleanDescriptionDropsLink(d: Bytes, p: nat, e: nat)
    requires p <= |d| && ProfileLinkAt(d, p) == Some(e)
    requires NoProfileLinkIn(d, 0, p) && NoProfileLinkIn(d, e, |d|)
    ensures CleanDescription(d) == Trim(d[..p] + d[e..])
  {
    EraseProfileLinksCopies(d, 0, p);
    EraseProfileLinksCopies(d, e, |d|);
    EraseProfileLinksCut(d, p, e);
    calc {
      EraseProfileLinksFrom(d, 0);
      d[0..p] + EraseProfileLinksFrom(d, e);
      d[0..p] + (d[e..|d|] + []);
      { assert d[0..p] == d[..p] && d[e..|d|] + [] == d[e..]; }
      d[..p] + d[e..];
    }
  }

  lemma EraseProfileLinksCut(s: Bytes, p: nat, e: nat)
    requires p <= |s| && ProfileLinkAt(s, p) == Some(e)
    ensures EraseProfileLinksFrom(s, p) == EraseProfileLinksFrom(s, e)
  {
  }

  /** A description that never mentions "github.com/" is only trimmed. */
  lemma CleanDescriptionWithoutGithub(d: Bytes)
    requires !ContainsCI(d, "github.com/")
    ensures CleanDescription(d) == Trim(d)
  {
    EraseProfileLinksKeeps(d, 0);
  }

  /** A description that is one profile link, say "https://github.com/jo", becomes empty. */
  lemma CleanDescriptionOfLink(d: Bytes)
    requires ProfileLinkAt(d, 0) == Some(|d|)
    ensures CleanDescription(d) == ""
  {
  }

  // ---------------------------------------------------------------------------
  // cleanProjectsList

  /** A candidate as `cleanProjectsList` keeps it: only the name and the description. */
  datatype Cleaned = Cleaned(name: Bytes, description: Bytes)

  /** The cleaned name and description of one candidate. */
  function CleanOne(c: Candidate): (r: Cleaned)
    ensures Trimmed(r.name) && Trimmed(r.description)
  {
    Cleaned(Trim(c.name), CleanDescription(c.description))
  }

  /** `empty($name) && empty($description)`. */
  predicate Blank(c: Cleaned) {
    IsEmpty(c.name) && IsEmpty(c.description)
  }

  /** The deduplication key before hashing: `strtolower($name . substr($description, 0, 20))`. */
  function Key(c: Cleaned): Bytes {
    LowerStr(c.name + c.description[..if |c.description| < 20 then |c.description| else 20])
  }

  /** What the loop keeps of `ps`, given the keys it has already seen. */
  function CleanFrom(ps: seq<Candidate>, seen: set<Bytes>): (r: seq<Cleaned>)
    decreases |ps|
  {
    if ps == [] then []
    else
      var c := CleanOne(ps[0]);
      if Blank(c) || Key(c) in seen then CleanFrom(ps[1..], seen)
      else [c] + CleanFrom(ps[1..], seen + {Key(c)})
  }

  /** A step of the loop that skips the candidate at `i`, whose cleaned form is `c`. */
  lemma CleanFromSkip(ps: seq<Candidate>, i: nat, seen: set<Bytes>, c: Cleaned, kept: seq<Cleaned>)
    requires i < |ps| && c == CleanOne(ps[i]) && (Blank(c) || Key(c) in seen)
    ensures kept + CleanFrom(ps[i..], seen) == kept + CleanFrom(ps[i + 1..], seen)
  {
    assert ps[i..][1..] == ps[i + 1..];
  }

  /** A step of the loop that keeps `c`, the cleaned form of the candidate at `i`. */
  lemma CleanFromKeep(ps: seq<Candidate>, i: nat, seen: set<Bytes>, c: Cleaned, kept: seq<Cleaned>)
    requires i < |ps| && c == CleanOne(ps[i]) && !Blank(c) && Key(c) !in seen
    ensures kept + CleanFrom(ps[i..], seen) == (kept + [c]) + CleanFrom(ps[i + 1..], seen + {Key(c)})
  {
    assert ps[i..][1..] == ps[i + 1..];
    assert CleanFrom(ps[i..], seen) == [c] + CleanFrom(ps[i + 1..], seen + {Key(c)});
  }

  /** `cleanProjectsList`. */
  method CleanProjectsList(projects: seq<Candidate>) returns (unique: seq<Cleaned>)
    ensures unique == CleanFrom(projects, {})
  {
    unique := [];
    var seen: set<Bytes> := {};
    var i := 0;
    while i < |projects|
      invariant 0 <= i <= |projects|
      invariant unique + CleanFrom(projects[i..], seen) == CleanFrom(projects, {})
    {
      var c := CleanOne(projects[i]);
      if Blank(c) {
        CleanFromSkip(projects, i, seen, c, unique);
      } else {
        var key := Key(c);
        if key in seen {
          CleanFromSkip(projects, i, seen, c, unique);
        } else {
          CleanFromKeep(projects, i, seen, c, unique);
          seen := seen + {key};
          unique := unique + [c];
        }
      }
      i := i + 1;
    }
    assert projects[|projects|..] == [];
  }

  /** The keys of a list of cleaned candidates. */
  function Keys(cs: seq<Cleaned>): set<Bytes> {
    set c | c in cs :: Key(c)
  }

  /** At most one entry per candidate, none blank, none with a key seen before, and no two
      with the same key. */
  lemma {:induction false} CleanFromShape(ps: seq<Candidate>, seen: set<Bytes>)
    ensures |CleanFrom(ps, seen)| <= |ps|
    ensures forall c :: c in CleanFrom(ps, seen) ==> !Blank(c) && Key(c) !in seen
    ensures forall i, j :: 0 <= i < j < |CleanFrom(ps, seen)| ==>
      Key(CleanFrom(ps, seen)[i]) != Key(CleanFrom(ps, seen)[j])
    decreases |ps|
  {
    if ps != [] {
      var c := CleanOne(ps[0]);
      CleanFromShape(ps[1..], seen);
      CleanFromShape(ps[1..], seen + {Key(c)});
      if !(Blank(c) || Key(c) in seen) {
        var r := CleanFrom(ps, seen);
        assert r == [c] + CleanFrom(ps[1..], seen + {Key(c)});
        forall i, j | 0 <= i < j < |r|
          ensures Key(r[i]) != Key(r[j])
        {
          assert r[j] in CleanFrom(ps[1..], seen + {Key(c)});
          if i > 0 {
            assert r[i] == CleanFrom(ps[1..], seen + {Key(c)})[i - 1];
          }
        }
      }
    }
  }

  /** Every candidate that is not blank has its key kept, unless it was seen before. */
  lemma {:induction false} CleanFromComplete(ps: seq<Candidate>, seen: set<Bytes>)
    ensures forall p :: p in ps && !Blank(CleanOne(p)) ==> Key(CleanOne(p)) in seen + Keys(CleanFrom(ps, seen))
    decreases |ps|
  {
    if ps != [] {
      var c := CleanOne(ps[0]);
      CleanFromComplete(ps[1..], seen);
      CleanFromComplete(ps[1..], seen + {Key(c)});
      assert forall p :: p in ps ==> p == ps[0] || p in ps[1..];
      if !(Blank(c) || Key(c) in seen) {
        assert c in CleanFrom(ps, seen);
        assert Keys(CleanFrom(ps[1..], seen + {Key(c)})) <= Keys(CleanFrom(ps, seen));
      }
    }
  }

  /** The first candidate with a given key is the one kept. */
  lemma {:induction false} CleanFromKeepsFirst(ps: seq<Candidate>, seen: set<Bytes>, j: nat)
    requires j < |ps| && !Blank(CleanOne(ps[j])) && Key(CleanOne(ps[j])) !in seen
    requires forall i :: 0 <= i < j ==> Blank(CleanOne(ps[i])) || Key(CleanOne(ps[i])) != Key(CleanOne(ps[j]))
    ensures CleanOne(ps[j]) in CleanFrom(ps, seen)
    decreases j
  {
    if j > 0 {
      var c, d := CleanOne(ps[0]), CleanOne(ps[j]);
      var seen' := if Blank(c) || Key(c) in seen then seen else seen + {Key(c)};
      var rest := ps[1..];
      assert rest[j - 1] == ps[j];
      assert Key(d) !in seen';
      forall i | 0 <= i < j - 1
        ensures Blank(CleanOne(rest[i])) || Key(CleanOne(rest[i])) != Key(d)
      {
        assert rest[i] == ps[i + 1];
      }
      CleanFromKeepsFirst(rest, seen', j - 1);
    }
  }

  /** The entries kept are the cleaned candidates in their original order. */
  lemma {:induction false} CleanFromInOrder(ps: seq<Candidate>, seen: set<Bytes>)
    ensures IsSubsequence(CleanFrom(ps, seen), CleanAll(ps))
    decreases |ps|
  {
    if ps != [] {
      var c := CleanOne(ps[0]);
      CleanFromInOrder(ps[1..], seen);
      CleanFromInOrder(ps[1..], seen + {Key(c)});
      assert CleanAll(ps) == [c] + CleanAll(ps[1..]);
    }
  }

  /** Every candidate cleaned, in order. */
  function CleanAll(ps: seq<Candidate>): (r: seq<Cleaned>)
    ensures |r| == |ps|
  {
    if ps == [] then [] else [CleanOne(ps[0])] + CleanAll(ps[1..])
  }

  // ---------------------------------------------------------------------------
  // isValidProject

  /** `^(https?:\/\/)?(www\.)?github\.com\/[a-z0-9_-]+\/?$` (case-insensitive) on the trimmed
      value. Dropping a scheme or "www." that matched cannot help, as neither 'h' nor 'w' is
      'g'; a trimmed value has no final "\n" for `$` to stop before. */
  predicate IsGitHubProfile(val: Bytes) {
    var t := Trim(val);
    var u := match SchemeEnd(t, 0) case Some(u) => u case None => 0;
    match GithubHostEnd(t, u)
    case None => false
    case Some(v) =>
      var m := SlugRunEnd(t, v);
      m > v && (m == |t| || (m + 1 == |t| && t[m] == '/'))
  }

  /** `isValidProject`: neither the name nor the description is a bare profile link. */
  predicate IsValidProject(c: Cleaned) {
    !IsGitHubProfile(c.name) && !IsGitHubProfile(c.description)
  }

  /** `array_values(array_filter(..., isValidProject))`. */
  function ValidOnly(cs: seq<Cleaned>): (r: seq<Cleaned>)
    ensures |r| <= |cs|
    ensures forall c :: c in r <==> c in cs && IsValidProject(c)
    ensures IsSubsequence(r, cs)
  {
    if cs == [] then []
    else if IsValidProject(cs[0]) then [cs[0]] + ValidOnly(cs[1..])
    else ValidOnly(cs[1..])
  }

  /** The filter keeps every copy of a valid project: each occurs as often as in the input. */
  lemma {:induction false} ValidOnlyCounts(cs: seq<Cleaned>)
    ensures forall c :: IsValidProject(c) ==> multiset(ValidOnly(cs))[c] == multiset(cs)[c]
  {
    if cs != [] {
      ValidOnlyCounts(cs[1..]);
      assert cs == [cs[0]] + cs[1..];
    }
  }

  // ---------------------------------------------------------------------------
  // determineProjectType

  /** Where a run of bytes that are neither whitespace nor ',' starting at `p` ends. */
  function TokenEnd(s: Bytes, p: nat): (r: nat)
    requires p <= |s|
    ensures p <= r <= |s| && (r == |s| || IsSpace(s[r]) || s[r] == ',')
    ensures forall k :: p <= k < r ==> !IsSpace(s[k]) && s[k] != ','
    decreases |s| - p
  {
    if p < |s| && !IsSpace(s[p]) && s[p] != ',' then TokenEnd(s, p + 1) else p
  }

  /** The length of the word of `(?:for|at|with)` that matches at `p` in any case, or 0
      when none does. The three words begin with different letters, so at most one
      matches and the order PCRE tries them in does not matter. */
  function KeywordAt(s: Bytes, p: nat): (n: nat)
    ensures n == 0 || n == 2 || n == 3 || n == 4
    ensures n > 0 ==> p + n <= |s|
  {
    if LowerIs(s, p, 'f') && LowerIs(s, p + 1, 'o') && LowerIs(s, p + 2, 'r') then 3
    else if LowerIs(s, p, 'a') && LowerIs(s, p + 1, 't') then 2
    else if LowerIs(s, p, 'w') && LowerIs(s, p + 1, 'i') && LowerIs(s, p + 2, 't') && LowerIs(s, p + 3, 'h') then 4
    else 0
  }

  /** The byte at `i` exists and lower-cases to `c`. */
  predicate LowerIs(s: Bytes, i: nat, c: char)
  {
    i < |s| && Lower(s[i]) == c
  }

  /** `KeywordAt` names the word that matches at `p` in any case. */
  lemma KeywordAtSpec(s: Bytes, p: nat)
    ensures KeywordAt(s, p) == 3 <==> MatchCI(s, p, "for")
    ensures KeywordAt(s, p) == 2 <==> MatchCI(s, p, "at")
    ensures KeywordAt(s, p) == 4 <==> MatchCI(s, p, "with")
    ensures KeywordAt(s, p) == 0 <==> !MatchCI(s, p, "for") && !MatchCI(s, p, "at") && !MatchCI(s, p, "with")
  {
    MatchCIThree(s, p, "for");
    MatchCITwo(s, p, "at");
    MatchCIFour(s, p, "with");
  }

  lemma MatchCITwo(s: Bytes, p: nat, w: Bytes)
    requires |w| == 2
    ensures MatchCI(s, p, w) <==> LowerIs(s, p, w[0]) && LowerIs(s, p + 1, w[1])
  {
    if LowerIs(s, p, w[0]) && LowerIs(s, p + 1, w[1]) {
      assert forall k :: 0 <= k < 2 ==> Lower(s[p + k]) == w[k] by {
        assert s[p + 0] == s[p];
      }
    }
    if MatchCI(s, p, w) {
      assert Lower(s[p + 0]) == w[0] && Lower(s[p + 1]) == w[1];
    }
  }

  lemma MatchCIThree(s: Bytes, p: nat, w: Bytes)
    requires |w| == 3
    ensures MatchCI(s, p, w) <==> LowerIs(s, p, w[0]) && LowerIs(s, p + 1, w[1]) && LowerIs(s, p + 2, w[2])
  {
    if LowerIs(s, p, w[0]) && LowerIs(s, p + 1, w[1]) && LowerIs(s, p + 2, w[2]) {
      assert forall k :: 0 <= k < 3 ==> Lower(s[p + k]) == w[k] by {
        assert s[p + 0] == s[p];
      }
    }
    if MatchCI(s, p, w) {
      assert Lower(s[p + 0]) == w[0] && Lower(s[p + 1]) == w[1] && Lower(s[p + 2]) == w[2];
    }
  }

  lemma MatchCIFour(s: Bytes, p: nat, w: Bytes)
    requires |w| == 4
    ensures MatchCI(s, p, w) <==>
      LowerIs(s, p, w[0]) && LowerIs(s, p + 1, w[1]) && LowerIs(s, p + 2, w[2]) && LowerIs(s, p + 3, w[3])
  {
    if LowerIs(s, p, w[0]) && LowerIs(s, p + 1, w[1]) && LowerIs(s, p + 2, w[2]) && LowerIs(s, p + 3, w[3]) {
      assert forall k :: 0 <= k < 4 ==> Lower(s[p + k]) == w[k] by {
        assert s[p + 0] == s[p];
      }
    }
    if MatchCI(s, p, w) {
      assert Lower(s[p + 0]) == w[0] && Lower(s[p + 1]) == w[1];
      assert Lower(s[p + 2]) == w[2] && Lower(s[p + 3]) == w[3];
    }
  }

  /** The capture of `(?:for|at|with)\s+([^\s,]+)` when a match starts at `p`, as (start,
      end). `\s+` stops before a byte that is not whitespace, and giving whitespace back
      would leave `[^\s,]` looking at whitespace, so only the longest run can succeed. */
  function ForAtWithAt(s: Bytes, p: nat): Option<(nat, nat)>
    requires p <= |s|
  {
    var n := KeywordAt(s, p);
    if n == 0 then None
    else
      var x := SkipSpace(s, p + n);
      if x > p + n && x < |s| && s[x] != ',' then Some((x, TokenEnd(s, x))) else None
  }

  /** A match at `p` is one of the three words, then whitespace up to the capture, which
      holds no whitespace or ',' and ends at the end, at whitespace or at a ','. */
  lemma ForAtWithAtShape(s: Bytes, p: nat)
    requires p <= |s|
    ensures var r := ForAtWithAt(s, p);
      r.Some? ==> KeywordAt(s, p) > 0 && p + KeywordAt(s, p) < r.value.0 < r.value.1 <= |s|
    ensures var r := ForAtWithAt(s, p);
      r.Some? ==> forall k :: p + KeywordAt(s, p) <= k < r.value.0 ==> IsSpace(s[k])
    ensures var r := ForAtWithAt(s, p);
      r.Some? ==> forall k :: r.value.0 <= k < r.value.1 ==> !IsSpace(s[k]) && s[k] != ','
    ensures var r := ForAtWithAt(s, p);
      r.Some? ==> r.value.1 == |s| || IsSpace(s[r.value.1]) || s[r.value.1] == ','
  {
  }

  /** No match starts at `p` exactly when none of the three words is there, or no
      whitespace follows it, or the whitespace runs to the end of the text or to a ','. */
  lemma ForAtWithAtNone(s: Bytes, p: nat)
    requires p <= |s|
    ensures ForAtWithAt(s, p).None? <==>
      var n := KeywordAt(s, p);
      n == 0 || SkipSpace(s, p + n) == p + n || SkipSpace(s, p + n) == |s| || s[SkipSpace(s, p + n)] == ','
  {
  }

  /** The first `q` from `i` to `n` where `f` holds: the start positions a scan tries, in
      order. */
  function FirstTrue(f: nat -> bool, i: nat, n: nat): (r: Option<nat>)
    ensures r.Some? ==> i <= r.value <= n
    decreases n + 1 - i
  {
    if i > n then None else if f(i) then Some(i) else FirstTrue(f, i + 1, n)
  }

  lemma {:induction false} FirstTrueFound(f: nat -> bool, i: nat, n: nat)
    requires FirstTrue(f, i, n).Some?
    ensures f(FirstTrue(f, i, n).value)
    decreases n + 1 - i
  {
    if !f(i) {
      FirstTrueFound(f, i + 1, n);
    }
  }

  /** A position where `f` holds means one is found, there or before. */
  lemma {:induction false} FirstTrueLeftmost(f: nat -> bool, i: nat, n: nat, q: nat)
    requires i <= q <= n && f(q)
    ensures FirstTrue(f, i, n).Some? && FirstTrue(f, i, n).value <= q
    decreases q - i
  {
    if i < q && !f(i) {
      FirstTrueLeftmost(f, i + 1, n, q);
    }
  }

  /** The scan depends only on the values of `f` it looks at. */
  lemma {:induction false} FirstTrueSame(f: nat -> bool, g: nat -> bool, i: nat, n: nat)
    requires forall q :: i <= q <= n ==> f(q) == g(q)
    ensures FirstTrue(f, i, n) == FirstTrue(g, i, n)
    decreases n + 1 - i
  {
    if i <= n {
      FirstTrueSame(f, g, i + 1, n);
    }
  }

  /** Whether a match of the token pattern starts at `q`. */
  function MatchesAt(s: Bytes): nat -> bool
  {
    (q: nat) => q <= |s| && ForAtWithAt(s, q).Some?
  }

  /** Where the leftmost match of the token pattern at or after `i` starts. */
  function ForAtWithStart(s: Bytes, i: nat): (r: Option<nat>)
    requires i <= |s|
    ensures r.Some? ==> i <= r.value <= |s|
  {
    FirstTrue(MatchesAt(s), i, |s|)
  }

  /** A match starts where `ForAtWithStart` stops. */
  lemma ForAtWithStartFound(s: Bytes, i: nat)
    requires i <= |s| && ForAtWithStart(s, i).Some?
    ensures ForAtWithAt(s, ForAtWithStart(s, i).value).Some?
  {
    FirstTrueFound(MatchesAt(s), i, |s|);
  }

  /** `ForAtWithStart` is the leftmost: a match at any `q` from `i` on means it finds one,
      at `q` or before. */
  lemma ForAtWithStartLeftmost(s: Bytes, i: nat, q: nat)
    requires i <= q <= |s| && ForAtWithAt(s, q).Some?
    ensures ForAtWithStart(s, i).Some? && ForAtWithStart(s, i).value <= q
  {
    assert MatchesAt(s)(q);
    FirstTrueLeftmost(MatchesAt(s), i, |s|, q);
  }

  /** `preg_match('/(?:for|at|with)\s+([^\s,]+)/i', s)` from `p`: the capture of the match
      at the leftmost start, as (start, end). */
  function ForAtWithFrom(s: Bytes, p: nat): (r: Option<(nat, nat)>)
    requires p <= |s|
    ensures r.Some? ==> p < r.value.0 < r.value.1 <= |s| && IsSpace(s[r.value.0 - 1])
    ensures r.Some? ==> forall k :: r.value.0 <= k < r.value.1 ==> !IsSpace(s[k]) && s[k] != ','
    ensures r.Some? ==> r.value.1 == |s| || IsSpace(s[r.value.1]) || s[r.value.1] == ','
    ensures r.Some? <==> ForAtWithStart(s, p).Some?
    ensures r.Some? ==> r == ForAtWithAt(s, ForAtWithStart(s, p).value)
  {
    match ForAtWithStart(s, p)
    case None => None
    case Some(q) =>
      ForAtWithStartFound(s, p);
      ForAtWithAtShape(s, q);
      ForAtWithAt(s, q)
  }

  /** No match is found exactly when no position from `p` on starts one, and a match found
      starts no later than any other. */
  lemma ForAtWithFromLeftmost(s: Bytes, p: nat, q: nat)
    requires p <= q <= |s|
    ensures ForAtWithAt(s, q).Some? ==>
      ForAtWithFrom(s, p).Some? && ForAtWithStart(s, p).value <= q
  {
    if ForAtWithAt(s, q).Some? {
      ForAtWithStartLeftmost(s, p, q);
    }
  }

  /** The first four rules of `determineProjectType`, on the lower-cased name and description. */
  function KeywordType(name: Bytes, desc: Bytes): (r: Option<Bytes>)
  {
    if Contains(name, "capstone") || Contains(desc, "capstone") then Some("Capstone Project")
    else if Contains(name, "freelance") || Contains(desc, "freelance") then Some("Freelance Project")
    else if Contains(name, "academic") || Contains(desc, "university") then Some("Academic Project")
    else if Contains(name, "hackathon") || Contains(desc, "hackathon") then Some("Hackathon Project")
    else None
  }

  /** The last two rules, on the lower-cased name: the token after for/at/with, first byte
      upper-cased, or "Personal Project". */
  function NameTokenType(name: Bytes): (r: Bytes)
    ensures r != []
    ensures r == "Personal Project" <==> ForAtWithFrom(name, 0).None?
    ensures ForAtWithFrom(name, 0).Some? ==>
      r == Ucfirst(name[ForAtWithFrom(name, 0).value.0..ForAtWithFrom(name, 0).value.1])
  {
    var m := ForAtWithFrom(name, 0);
    if m.None? then "Personal Project"
    else
      TokenNotPersonal(name, m.value.0, m.value.1);
      Ucfirst(name[m.value.0..m.value.1])
  }

  /** A token holds no whitespace, so it never reads "Personal Project". */
  lemma TokenNotPersonal(s: Bytes, a: nat, b: nat)
    requires a < b <= |s| && forall k :: a <= k < b ==> !IsSpace(s[k])
    ensures Ucfirst(s[a..b]) != "Personal Project"
  {
    var t := s[a..b];
    if |t| == 16 {
      assert Ucfirst(t)[1..][7] == t[1..][7] == s[a + 8];
      assert "Personal Project"[8] == ' ';
    }
  }

  /** `determineProjectType`: the four keyword rules, read as case-insensitive searches of
      the fields as written, the first that applies winning; then the token after the
      leftmost for/at/with and whitespace in the name, lower-cased with its first byte
      upper-cased; else "Personal Project". */
  function DetermineProjectType(c: Cleaned): (r: Bytes)
    ensures r != []
    ensures Mentions(c, "capstone", "capstone") ==> r == "Capstone Project"
    ensures (!Mentions(c, "capstone", "capstone") && Mentions(c, "freelance", "freelance")) ==>
      r == "Freelance Project"
    ensures (!Mentions(c, "capstone", "capstone") && !Mentions(c, "freelance", "freelance") &&
      Mentions(c, "academic", "university")) ==> r == "Academic Project"
    ensures (!Mentions(c, "capstone", "capstone") && !Mentions(c, "freelance", "freelance") &&
      !Mentions(c, "academic", "university") && Mentions(c, "hackathon", "hackathon")) ==>
      r == "Hackathon Project"
    ensures NoTypeKeyword(c) ==>
      (r == "Personal Project" <==> ForAtWithFrom(c.name, 0).None?)
    ensures NoTypeKeyword(c) && ForAtWithFrom(c.name, 0).Some? ==>
      r == Ucfirst(LowerStr(c.name)[ForAtWithFrom(c.name, 0).value.0..ForAtWithFrom(c.name, 0).value.1])
  {
    MentionsLower(c, "capstone", "capstone");
    MentionsLower(c, "freelance", "freelance");
    MentionsLower(c, "academic", "university");
    MentionsLower(c, "hackathon", "hackathon");
    NameTokenTypeShape(c.name);
    match KeywordType(LowerStr(c.name), LowerStr(c.description))
    case Some(t) => t
    case None => NameTokenType(LowerStr(c.name))
  }

  /** None of the four keyword rules applies. */
  predicate NoTypeKeyword(c: Cleaned)
  {
    !Mentions(c, "capstone", "capstone") && !Mentions(c, "freelance", "freelance") &&
    !Mentions(c, "academic", "university") && !Mentions(c, "hackathon", "hackathon")
  }

  /** The field `inName` names occurs in the name, or `inDesc` in the description, in any case. */
  predicate Mentions(c: Cleaned, inName: Bytes, inDesc: Bytes) {
    ContainsCI(c.name, inName) || ContainsCI(c.description, inDesc)
  }

  /** The two searches of a rule, on the lower-cased fields, are case-insensitive searches
      of the fields as written. */
  lemma MentionsLower(c: Cleaned, inName: Bytes, inDesc: Bytes)
    requires forall k :: 0 <= k < |inName| ==> !IsUpper(inName[k])
    requires forall k :: 0 <= k < |inDesc| ==> !IsUpper(inDesc[k])
    ensures Mentions(c, inName, inDesc) <==>
      Contains(LowerStr(c.name), inName) || Contains(LowerStr(c.description), inDesc)
  {
    ContainsLower(c.name, inName);
    ContainsLower(c.description, inDesc);
  }

  /** `n[a..b]` is a whole token of `n` that follows whitespace: no whitespace or comma in it. */
  predicate TokenSpan(n: Bytes, a: nat, b: nat)
  {
    0 < a < b <= |n| && IsSpace(n[a - 1]) && forall k :: a <= k < b ==> !IsSpace(n[k]) && n[k] != ','
  }

  /** The token rule, read on the name as written: "Personal Project", or a token of the name
      that follows whitespace, lower-cased, first byte upper-cased. */
  lemma NameTokenTypeShape(n: Bytes)
    ensures NameTokenType(LowerStr(n)) == "Personal Project" ||
      exists a: nat, b: nat :: TokenSpan(n, a, b) && NameTokenType(LowerStr(n)) == Ucfirst(LowerStr(n)[a..b])
    ensures NameTokenType(LowerStr(n)) == "Personal Project" <==>
      ForAtWithFrom(n, 0).None?
    ensures ForAtWithFrom(n, 0).Some? ==>
      NameTokenType(LowerStr(n)) == Ucfirst(LowerStr(n)[ForAtWithFrom(n, 0).value.0..ForAtWithFrom(n, 0).value.1])
  {
    ForAtWithFromOfLower(n);
    var name := LowerStr(n);
    var t := ForAtWithFrom(name, 0);
    if t.Some? {
      var (a, b) := t.value;
      assert IsSpace(n[a - 1]) by { assert name[a - 1] == Lower(n[a - 1]); }
      forall k | a <= k < b
        ensures !IsSpace(n[k]) && n[k] != ','
      {
        assert name[k] == Lower(n[k]);
      }
      assert TokenSpan(n, a, b);
    }
  }

  /** The three words are matched in any case, so lower-casing first finds the same one. */
  lemma KeywordAtOfLower(s: Bytes, p: nat)
    ensures KeywordAt(LowerStr(s), p) == KeywordAt(s, p)
  {
    var l := LowerStr(s);
    forall k | p <= k < p + 4 && k < |s|
      ensures LowerIs(l, k, Lower(s[k])) && (forall c :: LowerIs(l, k, c) <==> LowerIs(s, k, c))
    {
      assert l[k] == Lower(s[k]);
    }
  }

  /** `ForAtWithAt` in terms of the word length `n` at `p` and the end `x` of the whitespace
      after it. */
  lemma ForAtWithAtStep(s: Bytes, p: nat, n: nat, x: nat)
    requires p <= |s| && n == KeywordAt(s, p) && (n > 0 ==> x == SkipSpace(s, p + n))
    ensures ForAtWithAt(s, p) ==
      if n > 0 && x > p + n && x < |s| && s[x] != ',' then Some((x, TokenEnd(s, x))) else None
  {
  }

  /** The pattern is case-insensitive, so lower-casing the name first finds the same match. */
  lemma ForAtWithAtOfLower(s: Bytes, p: nat)
    requires p <= |s|
    ensures ForAtWithAt(LowerStr(s), p) == ForAtWithAt(s, p)
  {
    KeywordAtOfLower(s, p);
    LowerKeepsSpaceComma(s);
    ForAtWithAtAlike(s, LowerStr(s), p);
  }

  /** `s` and `t` have whitespace and commas at the same places. */
  predicate SameSpaceComma(s: Bytes, t: Bytes)
  {
    |s| == |t| && forall i :: 0 <= i < |s| ==> (IsSpace(s[i]) <==> IsSpace(t[i])) && (s[i] == ',' <==> t[i] == ',')
  }

  /** Lower-casing moves no whitespace and no comma. */
  lemma LowerKeepsSpaceComma(s: Bytes)
    ensures SameSpaceComma(s, LowerStr(s))
  {
  }

  /** Whitespace runs and tokens end at the same places in texts that agree on whitespace
      and commas. */
  lemma {:induction false} SameSpaceCommaEnds(s: Bytes, t: Bytes, p: nat)
    requires SameSpaceComma(s, t) && p <= |s|
    ensures SkipSpace(s, p) == SkipSpace(t, p) && TokenEnd(s, p) == TokenEnd(t, p)
    decreases |s| - p
  {
    if p < |s| {
      SameSpaceCommaEnds(s, t, p + 1);
    }
  }

  /** Two texts with the same word at `p` and whitespace and commas at the same places have
      the same match at `p`. */
  lemma ForAtWithAtAlike(s: Bytes, t: Bytes, p: nat)
    requires SameSpaceComma(s, t) && p <= |s| && KeywordAt(s, p) == KeywordAt(t, p)
    ensures ForAtWithAt(s, p) == ForAtWithAt(t, p)
  {
    var n := KeywordAt(s, p);
    if n > 0 {
      SameSpaceCommaEnds(s, t, p + n);
      var x := SkipSpace(s, p + n);
      if x < |s| {
        SameSpaceCommaEnds(s, t, x);
      }
      ForAtWithAtStep(s, p, n, x);
      ForAtWithAtStep(t, p, n, x);
    } else {
      ForAtWithAtStep(s, p, n, 0);
      ForAtWithAtStep(t, p, n, 0);
    }
  }

  /** The leftmost match starts at the same place in the lower-cased text. */
  lemma ForAtWithStartOfLower(s: Bytes, i: nat)
    requires i <= |s|
    ensures ForAtWithStart(LowerStr(s), i) == ForAtWithStart(s, i)
  {
    var l := LowerStr(s);
    forall q | i <= q <= |s|
      ensures MatchesAt(l)(q) == MatchesAt(s)(q)
    {
      ForAtWithAtOfLower(s, q);
    }
    FirstTrueSame(MatchesAt(l), MatchesAt(s), i, |s|);
  }

  /** `preg_match` with the i flag finds the same capture in the lower-cased name. */
  lemma ForAtWithFromOfLower(s: Bytes)
    ensures ForAtWithFrom(LowerStr(s), 0) == ForAtWithFrom(s, 0)
  {
    ForAtWithStartOfLower(s, 0);
    var a := ForAtWithStart(s, 0);
    if a.Some? {
      ForAtWithAtOfLower(s, a.value);
    }
  }

  // ---------------------------------------------------------------------------
  // extractTechnologies

  /** The alternatives of the technology pattern in the order PCRE tries them; `Vue(?:\.js)?`
      tries "vue.js" before "vue". */
  const TechWords: seq<Bytes> := ["php", "laravel", "vue.js", "vue", "react.js", "react", "javascript", "python", "mysql", "git"]

  /** The distinct lower-cased technology mentions, in order of first occurrence. */
  function TechList(d: Bytes): (r: seq<Bytes>)
    ensures forall i, j :: 0 <= i < j < |r| ==> r[i] != r[j]
    ensures forall t :: t in r ==> t in TechWords
    ensures forall h :: h in VocabHits(d, TechWords, 0) ==> LowerStr(h) in r
    ensures forall t :: t in r <==> t in LowerAll(VocabHits(d, TechWords, 0))
    ensures InFirstOccurrenceOrder(r, LowerAll(VocabHits(d, TechWords, 0)))
    ensures r == [] <==> VocabHits(d, TechWords, 0) == []
  {
    var hits := VocabHits(d, TechWords, 0);
    var low := LowerAll(hits);
    var r := Unique(low);
    forall h | h in hits
      ensures LowerStr(h) in r
    {
      var k :| 0 <= k < |hits| && hits[k] == h;
      assert low[k] in low;
    }
    forall t | t in r
      ensures t in TechWords
    {
      var k :| 0 <= k < |low| && low[k] == t;
      assert hits[k] in hits;
    }
    assert hits != [] ==> hits[0] in hits;
    r
  }

  /** `extractTechnologies`. */
  function ExtractTechnologies(d: Bytes): (r: Bytes)
    ensures r == "Various technologies" <==> VocabHits(d, TechWords, 0) == []
    ensures r != "Various technologies" ==> r == JoinComma(TechList(d))
  {
    var t := TechList(d);
    if t == [] then "Various technologies"
    else
      assert t[0] in TechWords;
      JoinComma(t)
  }

  // ---------------------------------------------------------------------------
  // normalizeProjects and analyze

  /** A project record as `normalizeProjects` returns it. */
  datatype ProjectRecord = ProjectRecord(company: Bytes, description: Bytes, technologies: Bytes, kind: Bytes)

  /** The record of one accepted candidate. */
  function ToRecord(c: Cleaned): (r: ProjectRecord)
    ensures r.kind == "project" && r.description == c.description && r.company != []
  {
    ProjectRecord(DetermineProjectType(c), c.description, ExtractTechnologies(c.description), "project")
  }

  /** `array_map` of the record builder. */
  function Records(cs: seq<Cleaned>): (r: seq<ProjectRecord>)
    ensures |r| == |cs|
    ensures forall i :: 0 <= i < |cs| ==> r[i] == ToRecord(cs[i])
  {
    if cs == [] then [] else [ToRecord(cs[0])] + Records(cs[1..])
  }

  /** `normalizeProjects`. */
  method NormalizeProjects(projects: seq<Candidate>) returns (records: seq<ProjectRecord>)
    ensures records == Records(ValidOnly(CleanFrom(projects, {})))
  {
    var cleaned := CleanProjectsList(projects);
    records := Records(ValidOnly(cleaned));
  }

  /** At most one record per candidate; each carries the description of a kept candidate,
      a non-empty classification and the type 'project', and comes from a candidate that
      is not a bare profile link. */
  lemma NormalizedShape(projects: seq<Candidate>)
    ensures |Records(ValidOnly(CleanFrom(projects, {})))| <= |projects|
    ensures forall r :: r in Records(ValidOnly(CleanFrom(projects, {}))) ==>
      r.kind == "project" && r.company != [] &&
      exists c :: c in CleanFrom(projects, {}) && IsValidProject(c) && r == ToRecord(c)
  {
    CleanFromShape(projects, {});
    var vs := ValidOnly(CleanFrom(projects, {}));
    forall r | r in Records(vs)
      ensures exists c :: c in CleanFrom(projects, {}) && IsValidProject(c) && r == ToRecord(c)
    {
      var i :| 0 <= i < |Records(vs)| && Records(vs)[i] == r;
      assert vs[i] in vs;
    }
  }

  /** What `analyze` can end in. */
  datatype Outcome = Returned(records: seq<ProjectRecord>) | Threw(message: Bytes)

  /** The methods the class defines. */
  const ClassMethods: set<Bytes> := {
    "analyze", "removeIrrelevantSections", "extractProjectsSection", "fallbackExtractProjects",
    "parseProjects", "parseBulletPointProjects", "createProject", "normalizeProjects",
    "cleanProjectsList", "cleanDescription", "isValidProject", "determineProjectType",
    "extractTechnologies" }

  const UndefinedMethod: Bytes := "Call to undefined method App\\Services\\ProjectExp::"

  /** Calling a method of the class: nothing, or the Error PHP raises for an undefined one. */
  function CallMethod(name: Bytes): (r: Option<Bytes>)
    ensures r.None? <==> name in ClassMethods
  {
    if name in ClassMethods then None
    else Some(UndefinedMethod + name + "()")
  }

  /** `analyze` as written: after the bullet parser, `parseProjects` calls
      `parseHeaderBasedProjects` and `parseImplicitProjects`. */
  function AnalyzeAsWritten(text: Bytes): (r: Outcome)
  {
    var projectsText := ProjectsText(RemoveIrrelevantSections(text));
    var projects := Candidates(SplitEntries(EraseContactLines(projectsText)));
    match CallMethod("parseHeaderBasedProjects")
    case Some(e) => Threw(e)
    case None =>
      match CallMethod("parseImplicitProjects")
      case Some(e) => Threw(e)
      case None => Returned(Records(ValidOnly(CleanFrom(projects, {}))))
  }

  /** Neither of the two methods exists, so `analyze` fails on every text. */
  lemma AnalyzeAsWrittenAlwaysThrows(text: Bytes)
    ensures AnalyzeAsWritten(text).Threw?
    ensures AnalyzeAsWritten(text).message == UndefinedMethod + "parseHeaderBasedProjects" + "()"
  {
    HeaderParserUndefined();
  }

  lemma HeaderParserUndefined()
    ensures CallMethod("parseHeaderBasedProjects") == Some(UndefinedMethod + "parseHeaderBasedProjects" + "()")
  {
    var m: Bytes := "parseHeaderBasedProjects";
    assert m[0] == 'p' && m[5] == 'H' && |m| == 24;
    assert m !in ClassMethods;
  }

  /** `analyze` with the two missing parsers taken as adding nothing, and the corrected
      heading trim: the records of the bullet-point candidates. */
  method Analyze(text: Bytes) returns (records: seq<ProjectRecord>)
    ensures records == Records(ValidOnly(CleanFrom(
      Candidates(SplitEntries(EraseContactLines(ProjectsText(RemoveLeadingBoilerplate(text))))), {})))
  {
    var t := RemoveLeadingBoilerplate(text);
    var projectsText := ProjectsText(t);
    var projects := ParseBulletPointProjects(projectsText, []);
    assert [] + Candidates(SplitEntries(EraseContactLines(projectsText))) == Candidates(SplitEntries(EraseContactLines(projectsText)));
    records := NormalizeProjects(projects);
  }
}
