/**
 * The two pure parts of `ResumeController`: the text clean-up applied before
 * analysis, and the fixed shape of the analysis record, whichever way the calls
 * to the inference service end.
 */
module ResumeController {
  import opened PhpText
  import opened Patterns

  /** Bytes that survive `preg_replace('/[^\w\s\-\.\,\:\;\@\/]/', '', …)`. */
  predicate IsKeptByte(c: char) {
    IsWord(c) || IsSpace(c) || c == '-' || c == '.' || c == ',' || c == ':' || c == ';' || c == '@' || c == '/'
  }

  /** Removes every byte that is not kept, preserving the order of the others. */
  function KeepMeaningful(s: Bytes): (r: Bytes)
    ensures |r| <= |s|
    ensures forall i :: 0 <= i < |r| ==> IsKeptByte(r[i])
    ensures OnlyBlankSpace(s) ==> OnlyBlankSpace(r)
  {
    if s == [] then []
    else
      var rest := KeepMeaningful(s[1..]);
      assert OnlyBlankSpace(s) ==> OnlyBlankSpace(s[1..]);
      if IsKeptByte(s[0]) then [s[0]] + rest else rest
  }

  /** Every kept byte survives: each occurs as often as in the input. */
  lemma {:induction false} KeepMeaningfulCounts(s: Bytes)
    ensures forall c :: IsKeptByte(c) ==> multiset(KeepMeaningful(s))[c] == multiset(s)[c]
  {
    if s != [] {
      KeepMeaningfulCounts(s[1..]);
      assert s == [s[0]] + s[1..];
    }
  }

  /** The kept bytes stay in the input's order. */
  lemma {:induction false} KeepMeaningfulInOrder(s: Bytes)
    ensures IsSubsequence(KeepMeaningful(s), s)
  {
    if s != [] {
      KeepMeaningfulInOrder(s[1..]);
      var rest := KeepMeaningful(s[1..]);
      if IsKeptByte(s[0]) {
        assert ([s[0]] + rest)[1..] == rest;
      }
    }
  }

  /** Text made of kept bytes only is left as it is. */
  lemma {:induction false} KeepMeaningfulOfKept(s: Bytes)
    requires forall i :: 0 <= i < |s| ==> IsKeptByte(s[i])
    ensures KeepMeaningful(s) == s
  {
    if s != [] {
      KeepMeaningfulOfKept(s[1..]);
    }
  }

  /** Dropping bytes and dropping whitespace can be done in either order, since every
      whitespace byte is kept. */
  lemma {:induction false} KeepMeaningfulNonSpace(s: Bytes)
    ensures NonSpace(KeepMeaningful(s)) == KeepMeaningful(NonSpace(s))
  {
    if s != [] {
      KeepMeaningfulNonSpace(s[1..]);
      var rest := KeepMeaningful(s[1..]);
      if IsKeptByte(s[0]) {
        NonSpaceAppend([s[0]], rest);
        assert ([s[0]] + rest)[1..] == rest;
      }
      if !IsSpace(s[0]) {
        var n := [s[0]] + NonSpace(s[1..]);
        assert n[1..] == NonSpace(s[1..]);
      } else {
        assert NonSpace(s) == NonSpace(s[1..]);
      }
    }
  }

  lemma DropNulOfNulFree(s: Bytes)
    requires forall i :: 0 <= i < |s| ==> s[i] != '\0'
    ensures DropNulEnd(DropNulStart(s)) == s
  {
  }

  /** `cleanResumeText`: collapse whitespace, drop symbols, trim. */
  function CleanResumeText(text: Bytes): (r: Bytes)
    ensures r == [] || (!IsSpace(r[0]) && !IsSpace(r[|r| - 1]))
    ensures OnlyBlankSpace(r)
    ensures forall i :: 0 <= i < |r| ==> IsKeptByte(r[i])
    ensures |r| <= |text|
  {
    var k := KeepMeaningful(Collapse(text));
    TrimKeepsBytes(k);
    Trim(k)
  }

  lemma TrimKeepsBytes(s: Bytes)
    requires OnlyBlankSpace(s)
    requires forall i :: 0 <= i < |s| ==> IsKeptByte(s[i])
    ensures OnlyBlankSpace(Trim(s))
    ensures forall i :: 0 <= i < |Trim(s)| ==> IsKeptByte(Trim(s)[i])
  {
    TrimIsInfix(s);
    var o, r := TrimOffset(s), Trim(s);
    forall i | 0 <= i < |r|
      ensures IsKeptByte(r[i]) && (IsSpace(r[i]) ==> r[i] == ' ')
    {
      assert r[i] == s[o + i];
    }
  }

  /** Apart from whitespace, the cleaned text is the input with its symbols removed:
      every meaningful byte that is not whitespace survives, in order. */
  lemma CleanResumeTextKeepsText(text: Bytes)
    ensures NonSpace(CleanResumeText(text)) == KeepMeaningful(NonSpace(text))
  {
    var c := Collapse(text);
    var k := KeepMeaningful(c);
    NonSpaceTrim(k);
    KeepMeaningfulNonSpace(c);
    NonSpaceCollapse(text);
    var n := NonSpace(k);
    assert n == KeepMeaningful(NonSpace(text));
    DropNulOfNulFree(n);
  }

  /** Whitespace-only text (including "") cleans to "". */
  lemma CleanResumeTextBlank(text: Bytes)
    requires forall i :: 0 <= i < |text| ==> IsSpace(text[i])
    ensures CleanResumeText(text) == ""
  {
    if text != [] {
      CollapseAllSpace(text);
      var k := KeepMeaningful(" ");
      assert k == " ";
      assert Trim(k) == Trim(k[1..]);
    }
  }

  /** Symbols are removed after whitespace was collapsed, so a symbol between two
      spaces leaves two spaces behind. */
  lemma CleanResumeTextSymbolBetweenSpaces()
    ensures CleanResumeText("a # b") == "a  b"
  {
    var s: Bytes := "a # b";
    assert SingleSpaced(s);
    CollapseOfSingleSpaced(s);
    assert KeepMeaningful(s[4..]) == "b";
    assert KeepMeaningful(s[3..]) == " b";
    assert KeepMeaningful(s[2..]) == " b";
    assert KeepMeaningful(s[1..]) == "  b";
    assert KeepMeaningful(s) == "a  b";
    TrimOfTrimmed("a  b");
  }

  /** Dropping symbols distributes over concatenation. */
  lemma {:induction false} KeepMeaningfulAppend(a: Bytes, b: Bytes)
    ensures KeepMeaningful(a + b) == KeepMeaningful(a) + KeepMeaningful(b)
    decreases |a|
  {
    if a == [] {
      assert a + b == b;
    } else {
      assert (a + b)[0] == a[0] && (a + b)[1..] == a[1..] + b;
      KeepMeaningfulAppend(a[1..], b);
      if IsKeptByte(a[0]) {
        AppendAssoc([a[0]], KeepMeaningful(a[1..]), KeepMeaningful(b));
      }
    }
  }

  /** Kept bytes at either end of `s` stay at the ends. */
  lemma KeepMeaningfulEnds(s: Bytes)
    requires s != [] && IsKeptByte(s[0]) && IsKeptByte(s[|s| - 1])
    ensures KeepMeaningful(s) != [] && KeepMeaningful(s)[0] == s[0]
    ensures KeepMeaningful(s)[|KeepMeaningful(s)| - 1] == s[|s| - 1]
  {
    var n := |s| - 1;
    assert s == s[..n] + [s[n]];
    KeepMeaningfulAppend(s[..n], [s[n]]);
    assert KeepMeaningful([s[n]]) == [s[n]];
  }

  /** `s` is not empty and starts and ends on a kept byte that is not whitespace. */
  predicate KeptEnds(s: Bytes) {
    SolidEnds(s) && IsKeptByte(s[0]) && IsKeptByte(s[|s| - 1])
  }

  /** The collapsed text keeps the kept ends, and the clean-up of such a text is its
      collapsed text with the symbols dropped. */
  lemma KeptEndsClean(x: Bytes)
    requires KeptEnds(x)
    ensures KeptEnds(KeepMeaningful(Collapse(x)))
    ensures KeepMeaningful(Collapse(x))[0] == x[0]
    ensures KeepMeaningful(Collapse(x))[|KeepMeaningful(Collapse(x))| - 1] == x[|x| - 1]
    ensures CleanResumeText(x) == KeepMeaningful(Collapse(x))
  {
    CollapseSolidEnds(x);
    KeepMeaningfulEnds(Collapse(x));
    TrimOfTrimmed(KeepMeaningful(Collapse(x)));
  }

  /** A whitespace run between two stretches with kept, non-whitespace ends leaves exactly
      one space: each stretch is cleaned on its own. */
  lemma CleanResumeTextAroundRun(x: Bytes, w: Bytes, y: Bytes)
    requires KeptEnds(x) && KeptEnds(y)
    requires w != [] && forall i :: 0 <= i < |w| ==> IsSpace(w[i])
    ensures CleanResumeText(x + w + y) == CleanResumeText(x) + " " + CleanResumeText(y)
  {
    CollapseAroundRun(x, w, y);
    var kx, ky := KeepMeaningful(Collapse(x)), KeepMeaningful(Collapse(y));
    KeptEndsClean(x);
    KeptEndsClean(y);
    KeepMeaningfulAppend(Collapse(x) + " ", Collapse(y));
    KeepMeaningfulAppend(Collapse(x), " ");
    assert KeepMeaningful(" ") == " ";
    var r := kx + " " + ky;
    assert r[0] == x[0] && r[|r| - 1] == y[|y| - 1];
    TrimOfTrimmed(r);
  }

  // ---------------------------------------------------------------------------
  // analyzeResumeText

  /** How one call into the inference service ends: it returns a value (`None`
      standing for PHP null) or throws an exception with a message. */
  datatype Reply<T> = Returned(result: Option<T>) | Threw(message: Bytes)

  /** The five calls `analyzeResumeText` makes, as opaque functions of the cleaned text.
      Array elements of the service's answers are represented by strings. */
  datatype Gateway = Gateway(
    extractSkills: Bytes -> Reply<seq<Bytes>>,
    analyzeExperience: Bytes -> Reply<seq<Bytes>>,
    analyzeEducation: Bytes -> Reply<seq<Bytes>>,
    evaluateQuality: Bytes -> Reply<real>,
    generateRecommendations: Bytes -> Reply<seq<Bytes>>)

  /** The array `analyzeResumeText` returns; `error` false means the key is absent. */
  datatype Analysis = Analysis(
    skills: seq<Bytes>,
    experience: seq<Bytes>,
    education: seq<Bytes>,
    qualityScore: real,
    recommendations: seq<Bytes>,
    error: bool)

  const FailurePrefix: Bytes := "AI analysis failed: "

  /** The message of the first call, in the order the source makes them, that throws. */
  function FirstFailure(g: Gateway, c: Bytes): Option<Bytes>
  {
    if g.extractSkills(c).Threw? then Some(g.extractSkills(c).message)
    else if g.analyzeExperience(c).Threw? then Some(g.analyzeExperience(c).message)
    else if g.analyzeEducation(c).Threw? then Some(g.analyzeEducation(c).message)
    else if g.evaluateQuality(c).Threw? then Some(g.evaluateQuality(c).message)
    else if g.generateRecommendations(c).Threw? then Some(g.generateRecommendations(c).message)
    else None
  }

  /** `$x ?? []` on a call that returned. */
  function ListOrEmpty(r: Reply<seq<Bytes>>): seq<Bytes>
    requires r.Returned?
  {
    if r.result.Some? then r.result.value else []
  }

  /** `analyzeResumeText`: the five results, or the fixed failure record. */
  function AnalyzeResumeText(text: Bytes, g: Gateway): (r: Analysis)
    ensures r.error <==> FirstFailure(g, CleanResumeText(text)).Some?
    ensures r.error ==>
      && r.skills == [] && r.experience == [] && r.education == []
      && r.qualityScore == 0.0
      && r.recommendations == [FailurePrefix + FirstFailure(g, CleanResumeText(text)).value]
    ensures !r.error ==>
      var c := CleanResumeText(text);
      && (g.extractSkills(c) == Returned(None) ==> r.skills == [])
      && (g.analyzeExperience(c) == Returned(None) ==> r.experience == [])
      && (g.analyzeEducation(c) == Returned(None) ==> r.education == [])
      && (g.evaluateQuality(c) == Returned(None) ==> r.qualityScore == 0.0)
      && (g.generateRecommendations(c) == Returned(None) ==> r.recommendations == [])
      && (g.extractSkills(c).result.Some? ==> r.skills == g.extractSkills(c).result.value)
      && (g.analyzeExperience(c).result.Some? ==> r.experience == g.analyzeExperience(c).result.value)
      && (g.analyzeEducation(c).result.Some? ==> r.education == g.analyzeEducation(c).result.value)
      && (g.generateRecommendations(c).result.Some? ==>
            r.recommendations == g.generateRecommendations(c).result.value)
      && (g.evaluateQuality(c).result.Some? ==> r.qualityScore == g.evaluateQuality(c).result.value)
  {
    var c := CleanResumeText(text);
    match FirstFailure(g, c)
    case Some(m) => Analysis([], [], [], 0.0, [FailurePrefix + m], true)
    case None =>
      var q := g.evaluateQuality(c).result;
      Analysis(
        ListOrEmpty(g.extractSkills(c)),
        ListOrEmpty(g.analyzeExperience(c)),
        ListOrEmpty(g.analyzeEducation(c)),
        if q.Some? then q.value else 0.0,
        ListOrEmpty(g.generateRecommendations(c)),
        false)
  }
}
