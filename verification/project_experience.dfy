/**
 * `ProjectExperience::parse`: splits a projects text into pieces at blank-line runs
 * and before every '•', and turns each piece that is not blank into one record with
 * a name, technologies, a description, a duration and a role.
 */
module ProjectExperience {
  import opened PhpText
  import opened Patterns

  // ---------------------------------------------------------------------------
  // preg_split('/\n\s*\n|(?=•)/', $projectsText)

  /** The last "\n" in `[lo, hi)`. */
  function LastNewline(s: Bytes, lo: nat, hi: nat): (r: Option<nat>)
    requires lo <= hi <= |s|
    ensures r.Some? ==> lo <= r.value < hi && s[r.value] == '\n'
    ensures r.Some? ==> forall k :: r.value < k < hi ==> s[k] != '\n'
    ensures r.None? ==> forall k :: lo <= k < hi ==> s[k] != '\n'
    decreases hi - lo
  {
    if hi == lo then None
    else if s[hi - 1] == '\n' then Some(hi - 1)
    else LastNewline(s, lo, hi - 1)
  }

  /** Where `\n\s*\n` ends when it matches at `p`: the greedy `\s*` gives bytes back
      until a "\n" follows, so the match ends after the last "\n" of the whitespace run. */
  function BlankRunEnd(s: Bytes, p: nat): (r: Option<nat>)
    requires p <= |s|
    ensures r.Some? ==> p + 2 <= r.value <= |s| && forall k :: p <= k < r.value ==> IsSpace(s[k])
    ensures r.None? && p < |s| && s[p] == '\n' ==>
      forall k :: p < k < SkipSpace(s, p + 1) ==> s[k] != '\n'
  {
    if p < |s| && s[p] == '\n' then
      var n := LastNewline(s, p + 1, SkipSpace(s, p + 1));
      if n.Some? then Some(n.value + 1) else None
    else None
  }

  /** The pieces of the split from `last`, the search being at `i`. At each position the
      blank-run branch is tried before the lookahead; an empty lookahead match ends a piece
      (an empty one when the piece has only just begun), and the search goes on one byte
      further, since a non-empty match cannot start at a '•'. Empty pieces are kept. */
  function SplitFrom(s: Bytes, last: nat, i: nat): (r: seq<Bytes>)
    requires last <= i <= |s|
    ensures |r| >= 1
    decreases |s| - i
  {
    if i == |s| then [s[last..]]
    else
      var b := BlankRunEnd(s, i);
      if b.Some? then [s[last..i]] + SplitFrom(s, b.value, b.value)
      else if MatchAt(s, i, Bullet) then [s[last..i]] + SplitFrom(s, i, i + 1)
      else SplitFrom(s, last, i + 1)
  }

  function Pieces(s: Bytes): (r: seq<Bytes>)
    ensures |r| >= 1
  {
    SplitFrom(s, 0, 0)
  }

  /** Only whitespace is lost: the split drops the blank-line runs and nothing else. */
  lemma {:induction false} SplitFromKeepsText(s: Bytes, last: nat, i: nat)
    requires last <= i <= |s|
    ensures NonSpace(Concat(SplitFrom(s, last, i))) == NonSpace(s[last..])
    decreases |s| - i
  {
    if i == |s| {
      ConcatOne(s[last..]);
    } else {
      var b := BlankRunEnd(s, i);
      if b.Some? {
        SplitFromKeepsText(s, b.value, b.value);
        PieceThenRest(s, last, i, b.value, SplitFrom(s, b.value, b.value));
      } else if MatchAt(s, i, Bullet) {
        SplitFromKeepsText(s, i, i + 1);
        PieceThenRest(s, last, i, i, SplitFrom(s, i, i + 1));
      } else {
        SplitFromKeepsText(s, last, i + 1);
      }
    }
  }

  /** A piece `[last, i)` followed by pieces that keep the text from `e` on, where
      `[i, e)` is whitespace, keeps the text from `last` on. */
  lemma PieceThenRest(s: Bytes, last: nat, i: nat, e: nat, rest: seq<Bytes>)
    requires last <= i <= e <= |s| && forall k :: i <= k < e ==> IsSpace(s[k])
    requires NonSpace(Concat(rest)) == NonSpace(s[e..])
    ensures NonSpace(Concat([s[last..i]] + rest)) == NonSpace(s[last..])
  {
    assert ([s[last..i]] + rest)[1..] == rest;
    NonSpaceAppend(s[last..i], Concat(rest));
    SkipWhitespace(s, last, i, e);
  }

  /** Leaving out a whitespace stretch `[i, e)` keeps the same non-whitespace bytes. */
  lemma SkipWhitespace(s: Bytes, last: nat, i: nat, e: nat)
    requires last <= i <= e <= |s| && forall k :: i <= k < e ==> IsSpace(s[k])
    ensures NonSpace(s[last..]) == NonSpace(s[last..i]) + NonSpace(s[e..])
  {
    var a, w, z := s[last..i], s[i..e], s[e..];
    assert s[last..] == a + (w + z);
    NonSpaceAppend(w, z);
    NonSpaceAppend(a, w + z);
    NonSpaceAllSpace(w);
  }

  /** The pieces hold every byte of the text that is not whitespace, in order. */
  lemma PiecesKeepText(s: Bytes)
    ensures NonSpace(Concat(Pieces(s))) == NonSpace(s)
  {
    SplitFromKeepsText(s, 0, 0);
    assert s[0..] == s;
  }

  /** A blank line separates two pieces. */
  lemma PiecesBlankLineExample()
    ensures Pieces("a\n\nb") == ["a", "b"]
  {
    var s := "a\n\nb";
    assert SkipSpace(s, 2) == 3;
    assert BlankRunEnd(s, 1) == Some(3);
    assert SplitFrom(s, 3, 3) == ["b"];
    assert s[0..1] == "a";
    assert SplitFrom(s, 0, 1) == ["a"] + ["b"];
  }

  /** A '•' at the very start gives an empty first piece. */
  lemma PiecesLeadingBulletExample()
    ensures Pieces(Bullet + "a") == ["", Bullet + "a"]
  {
    var s := Bullet + "a";
    assert s == LeadingBulletSample;
    LeadingBulletRest();
    assert MatchAt(s, 0, Bullet);
  }

  const LeadingBulletSample: Bytes := "\U{E2}\U{80}\U{A2}a"

  lemma LeadingBulletRest()
    ensures SplitFrom(LeadingBulletSample, 0, 1) == [LeadingBulletSample]
  {
    var s := LeadingBulletSample;
    assert s[1] == '\U{80}' && s[2] == '\U{A2}' && s[3] == 'a';
    assert !MatchAt(s, 1, Bullet) && !MatchAt(s, 2, Bullet) && !MatchAt(s, 3, Bullet);
    assert s[0..] == s;
  }

  /** A piece holds a '•' only at its start, and no blank-line run. */
  predicate WellSplit(t: Bytes) {
    && (forall j :: 0 < j <= |t| - 3 ==> !MatchAt(t, j, Bullet))
    && (forall a, b :: 0 <= a < b < |t| && t[a] == '\n' && t[b] == '\n' ==>
          exists k :: a < k < b && !IsSpace(t[k]))
  }

  /** The positions of `s` that the search has passed without a match. */
  predicate Scanned(s: Bytes, last: nat, i: nat)
    requires last <= i <= |s|
  {
    forall q :: last <= q < i ==> BlankRunEnd(s, q).None? && (q == last || !MatchAt(s, q, Bullet))
  }

  /** A stretch of the text that the search passed over is a well-split piece. */
  lemma ScannedPiece(s: Bytes, last: nat, i: nat)
    requires last <= i <= |s| && Scanned(s, last, i)
    ensures WellSplit(s[last..i])
  {
    var t := s[last..i];
    forall j | 0 < j <= |t| - 3
      ensures !MatchAt(t, j, Bullet)
    {
      if MatchAt(t, j, Bullet) {
        MatchAtSlice(s, last, i, j, Bullet);
      }
    }
    forall a, b | 0 <= a < b < |t| && t[a] == '\n' && t[b] == '\n'
      ensures exists k :: a < k < b && !IsSpace(t[k])
    {
      var p := last + a;
      assert s[p] == '\n' && BlankRunEnd(s, p).None?;
      var x := SkipSpace(s, p + 1);
      assert s[last + b] == '\n';
      assert x <= last + b;
      assert !IsSpace(t[x - last]);
    }
  }

  /** A passed-over piece, put before well-split pieces. */
  lemma ScannedThenRest(s: Bytes, last: nat, i: nat, rest: seq<Bytes>)
    requires last <= i <= |s| && Scanned(s, last, i)
    requires forall t :: t in rest ==> WellSplit(t)
    ensures forall t :: t in [s[last..i]] + rest ==> WellSplit(t)
  {
    ScannedPiece(s, last, i);
  }

  lemma {:induction false} SplitFromWellSplit(s: Bytes, last: nat, i: nat)
    requires last <= i <= |s| && Scanned(s, last, i)
    ensures forall t :: t in SplitFrom(s, last, i) ==> WellSplit(t)
    decreases |s| - i
  {
    if i == |s| {
      ScannedPiece(s, last, i);
      assert s[last..i] == s[last..];
    } else {
      var b := BlankRunEnd(s, i);
      if b.Some? {
        SplitFromWellSplit(s, b.value, b.value);
        ScannedThenRest(s, last, i, SplitFrom(s, b.value, b.value));
      } else if MatchAt(s, i, Bullet) {
        SplitFromWellSplit(s, i, i + 1);
        ScannedThenRest(s, last, i, SplitFrom(s, i, i + 1));
      } else {
        SplitFromWellSplit(s, last, i + 1);
      }
    }
  }

  /** No piece holds a '•' other than at its start, and none holds a blank line. */
  lemma PiecesWellSplit(s: Bytes)
    ensures forall t :: t in Pieces(s) ==> WellSplit(t)
  {
    SplitFromWellSplit(s, 0, 0);
  }

  // ---------------------------------------------------------------------------
  // extractProjectName, cleanDescription

  /** `extractProjectName`: the first line, trimmed. */
  function ProjectName(t: Bytes): (r: Bytes)
    ensures Trimmed(r) && '\n' !in r
  {
    var n := Lines(t)[0];
    TrimKeepsByteAbsent(n, '\n');
    Trim(n)
  }

  /** The name is the trimmed text before the first "\n". */
  lemma ProjectNameIsFirstLine(t: Bytes)
    ensures ProjectName(t) == Trim(t[..LineEnd(t, 0)])
    ensures '\n' !in t ==> ProjectName(t) == Trim(t)
  {
    if '\n' !in t {
      assert LineEnd(t, 0) == |t|;
      assert t[..|t|] == t;
    }
  }

  /** `cleanDescription`: every line but the first (all of a one-line text), trimmed. */
  function ProjectDescription(t: Bytes): (r: Bytes)
    ensures Trimmed(r)
  {
    var ls := Lines(t);
    Trim(JoinLines(if |ls| > 1 then ls[1..] else ls))
  }

  /** The description is the text after the first "\n", or the whole text when there is none. */
  lemma ProjectDescriptionIsRest(t: Bytes)
    ensures LineEnd(t, 0) < |t| ==> ProjectDescription(t) == Trim(t[LineEnd(t, 0) + 1..])
    ensures LineEnd(t, 0) == |t| ==> ProjectDescription(t) == Trim(t)
  {
    var e := LineEnd(t, 0);
    if e < |t| {
      RestLines(t);
      assert |Lines(t)| > 1;
    } else {
      assert Lines(t) == [t];
    }
  }

  // ---------------------------------------------------------------------------
  // extractRole: /\b(?:as|role)\s*:\s*(.+?)(?:\n|$)/i

  /** The capture of the role pattern when a match starts at `p`. */
  function RoleAt(s: Bytes, p: nat): (r: Option<(nat, nat)>)
    requires p <= |s|
    ensures r.Some? ==> p < r.value.0 < r.value.1 <= |s|
    ensures r.Some? ==> forall k :: r.value.0 <= k < r.value.1 ==> s[k] != '\n'
    ensures r.Some? ==> IsBoundary(s, p) && (MatchCI(s, p, "as") || MatchCI(s, p, "role"))
    ensures r.Some? ==>
      var c := SkipSpace(s, p + if MatchCI(s, p, "as") then 2 else 4);
      c < r.value.0 && s[c] == ':' && forall k :: c < k < r.value.0 ==> IsSpace(s[k])
    ensures r.Some? ==> r.value.1 == |s| || s[r.value.1] == '\n'
  {
    var k := if MatchCI(s, p, "as") then Some(p + 2) else if MatchCI(s, p, "role") then Some(p + 4) else None;
    if !IsBoundary(s, p) || k.None? then None
    else
      var c := SkipSpace(s, k.value);
      if c < |s| && s[c] == ':' then LineRest(s, c + 1) else None
  }

  /** No role match starts in `s[i..j]`. */
  predicate NoRoleIn(s: Bytes, i: nat, j: nat)
    requires i <= j <= |s|
    decreases j - i
  {
    i == j || (RoleAt(s, i).None? && NoRoleIn(s, i + 1, j))
  }

  lemma {:induction false} NoRoleInAt(s: Bytes, i: nat, j: nat, p: nat)
    requires i <= p < j <= |s| && NoRoleIn(s, i, j)
    ensures RoleAt(s, p).None?
    decreases p - i
  {
    if i < p {
      NoRoleInAt(s, i + 1, j, p);
    }
  }

  /** Where the leftmost role match at or after `i` starts. */
  function RoleStart(s: Bytes, i: nat): (r: Option<nat>)
    requires i <= |s|
    ensures r.Some? ==> i <= r.value <= |s| && RoleAt(s, r.value).Some?
    ensures r.Some? ==> NoRoleIn(s, i, r.value)
    ensures r.None? ==> forall q :: i <= q <= |s| ==> RoleAt(s, q).None?
    decreases |s| - i
  {
    if RoleAt(s, i).Some? then Some(i)
    else if i == |s| then None
    else RoleStart(s, i + 1)
  }

  /** The capture of the leftmost role match at or after `i`. */
  function FirstRole(s: Bytes, i: nat): (r: Option<(nat, nat)>)
    requires i <= |s|
    ensures r.Some? ==> i < r.value.0 < r.value.1 <= |s|
    ensures r.Some? ==> forall k :: r.value.0 <= k < r.value.1 ==> s[k] != '\n'
    ensures r.None? <==> forall q :: i <= q <= |s| ==> RoleAt(s, q).None?
  {
    match RoleStart(s, i)
    case None => None
    case Some(q) => RoleAt(s, q)
  }

  /** `extractRole`: the trimmed capture, or "". */
  function ProjectRole(t: Bytes): (r: Bytes)
    ensures Trimmed(r) && '\n' !in r
    ensures r != "" ==> FirstRole(t, 0).Some?
    ensures FirstRole(t, 0).None? ==> r == ""
    ensures FirstRole(t, 0).Some? ==> r == Trim(t[FirstRole(t, 0).value.0..FirstRole(t, 0).value.1])
  {
    var m := FirstRole(t, 0);
    if m.None? then ""
    else
      var (a, b) := m.value;
      TrimKeepsByteAbsent(t[a..b], '\n');
      Trim(t[a..b])
  }

  /** Without a ':' there is no role. */
  lemma ProjectRoleNeedsColon(t: Bytes)
    requires ':' !in t
    ensures ProjectRole(t) == ""
  {
    assert forall c :: 0 <= c < |t| ==> t[c] != ':';
  }

  /** "Role: Lead" has the role "Lead". */
  lemma RoleExample()
    ensures ProjectRole("Role: Lead") == "Lead"
  {
    RoleExampleFirst();
    RoleExampleSlice();
  }

  lemma RoleExampleSlice()
    ensures "Role: Lead"[6..10] == "Lead" && Trim("Lead") == "Lead"
  {
    TrimOfTrimmed("Lead");
  }

  lemma RoleExampleFirst()
    ensures FirstRole("Role: Lead", 0) == Some((6, 10))
  {
    RoleExampleMatch();
  }

  lemma RoleExampleMatch()
    ensures RoleAt("Role: Lead", 0) == Some((6, 10))
  {
    var s := "Role: Lead";
    assert s[0] == 'R' && s[1] == 'o' && s[2] == 'l' && s[3] == 'e' && s[4] == ':' && s[5] == ' ';
    assert Lower(s[0]) != "as"[0];
    assert MatchCI(s, 0, "role");
    assert SkipSpace(s, 4) == 4;
    assert SkipSpace(s, 5) == 6 by {
      assert SkipSpace(s, 6) == 6;
    }
    assert LineEnd(s, 7) == 10;
  }

  // ---------------------------------------------------------------------------
  // extractTechnologies

  /** The alternatives of
      `\b(?:PHP|Laravel|Vue|React|JavaScript|Python|MySQL|Git|Node\.?js|Docker|AWS)\b`, in
      the order the regex tries them, lower-cased; `Node\.?js` tries the dot first. */
  const TechAlternatives: seq<Bytes> :=
    ["php", "laravel", "vue", "react", "javascript", "python", "mysql", "git", "node.js", "nodejs", "docker", "aws"]

  /** End of the run of lower-case letters from `p`. */
  function LowerRunEnd(s: Bytes, p: nat): (r: nat)
    requires p <= |s|
    ensures p <= r <= |s| && (r == |s| || !IsLower(s[r]))
    ensures forall k :: p <= k < r ==> IsLower(s[k])
    decreases |s| - p
  {
    if p < |s| && IsLower(s[p]) then LowerRunEnd(s, p + 1) else p
  }

  /** One more repetition of ` [A-Z][a-z]+` at `q`: where it ends. */
  function NextCapWord(s: Bytes, q: nat): (r: Option<nat>)
    requires q <= |s|
    ensures r.Some? ==> q + 3 <= r.value <= |s| && s[q] == ' ' && IsUpper(s[q + 1])
    ensures r.Some? ==> forall k :: q + 2 <= k < r.value ==> IsLower(s[k])
  {
    if q + 2 < |s| && s[q] == ' ' && IsUpper(s[q + 1]) && LowerRunEnd(s, q + 2) > q + 2
    then Some(LowerRunEnd(s, q + 2)) else None
  }

  /** `(?: [A-Z][a-z]+)*\b` once a word has ended at `q`: the repetition is greedy, so one
      more word is taken when the rest still matches after it, otherwise `\b` must hold
      at `q`. (Giving back letters of a `[a-z]+` never helps: the byte after a shorter run
      is a letter, so neither a space nor `\b` can follow.) */
  function CapTail(s: Bytes, q: nat): (r: Option<nat>)
    requires q <= |s|
    ensures r.Some? ==> q <= r.value <= |s|
    decreases |s| - q
  {
    var w := NextCapWord(s, q);
    var more := if w.Some? then CapTail(s, w.value) else None;
    if more.Some? then more
    else if IsBoundary(s, q) then Some(q)
    else None
  }

  /** Where `\b[A-Z][a-z]+(?: [A-Z][a-z]+)*\b` ends when it matches at `p`. */
  function CapPhraseAt(s: Bytes, p: nat): (r: Option<nat>)
    requires p <= |s|
    ensures r.Some? ==> p + 2 <= r.value <= |s|
  {
    if p < |s| && IsBoundary(s, p) && IsUpper(s[p]) && LowerRunEnd(s, p + 1) > p + 1
    then CapTail(s, LowerRunEnd(s, p + 1))
    else None
  }

  /** `preg_match_all` of the capitalised-phrase pattern from `i`. */
  function CapPhrases(s: Bytes, i: nat): (r: seq<Bytes>)
    requires i <= |s|
    decreases |s| - i
  {
    if i == |s| then []
    else
      var e := CapPhraseAt(s, i);
      if e.Some? then [s[i..e.value]] + CapPhrases(s, e.value) else CapPhrases(s, i + 1)
  }

  /** A capitalised phrase: capitalised words of ASCII letters, one space between them. */
  predicate IsCapPhrase(t: Bytes) {
    && |t| >= 2 && IsUpper(t[0]) && IsLower(t[|t| - 1])
    && (forall k :: 0 <= k < |t| ==> IsLetter(t[k]) || t[k] == ' ')
    && (forall k :: 0 <= k < |t| - 1 && t[k] == ' ' ==> IsUpper(t[k + 1]) && IsLower(t[k - 1]))
  }

  /** The words taken after `q` are made of letters and spaces and end on a lower-case letter. */
  lemma {:induction false} CapTailLetters(s: Bytes, q: nat)
    requires 0 < q <= |s| && IsLower(s[q - 1]) && CapTail(s, q).Some?
    ensures var e := CapTail(s, q).value;
      IsLower(s[e - 1]) && forall k :: q <= k < e ==> IsLetter(s[k]) || s[k] == ' '
    decreases |s| - q
  {
    var w := NextCapWord(s, q);
    var more := if w.Some? then CapTail(s, w.value) else None;
    if more.Some? {
      CapTailLetters(s, w.value);
    }
  }

  /** Each space taken after `q` sits between a lower-case and an upper-case letter. */
  lemma {:induction false} CapTailSpaces(s: Bytes, q: nat)
    requires 0 < q <= |s| && IsLower(s[q - 1]) && CapTail(s, q).Some?
    ensures var e := CapTail(s, q).value;
      forall k :: q - 1 <= k < e - 1 && s[k] == ' ' ==> IsUpper(s[k + 1]) && IsLower(s[k - 1])
    decreases |s| - q
  {
    var w := NextCapWord(s, q);
    var more := if w.Some? then CapTail(s, w.value) else None;
    if more.Some? {
      var v := w.value;
      assert forall k :: q - 1 <= k < v - 1 && s[k] == ' ' ==> k == q;
      CapTailSpaces(s, v);
    }
  }

  /** A phrase matched at `i` is a capitalised phrase. */
  lemma CapPhraseAtShape(s: Bytes, i: nat)
    requires i <= |s| && CapPhraseAt(s, i).Some?
    ensures IsCapPhrase(s[i..CapPhraseAt(s, i).value])
  {
    var e := CapPhraseAt(s, i).value;
    var q := LowerRunEnd(s, i + 1);
    CapTailLetters(s, q);
    CapTailSpaces(s, q);
    var t := s[i..e];
    assert forall k :: 0 <= k < |t| ==> t[k] == s[i + k];
    assert forall k :: 0 <= k < q - i ==> IsLetter(t[k]);
  }

  /** Every phrase found is a capitalised phrase. */
  lemma {:induction false} CapPhrasesShape(s: Bytes, i: nat)
    requires i <= |s|
    ensures forall t :: t in CapPhrases(s, i) ==> IsCapPhrase(t)
    decreases |s| - i
  {
    if i < |s| {
      var e := CapPhraseAt(s, i);
      if e.Some? {
        CapPhraseAtShape(s, i);
        CapPhrasesShape(s, e.value);
      } else {
        CapPhrasesShape(s, i + 1);
      }
    }
  }

  /** `extractTechnologies`: the vocabulary hits lower-cased, then the capitalised
      phrases as written, with repeated strings dropped after their first occurrence. */
  function Technologies(t: Bytes): (r: seq<Bytes>)
    ensures forall i, j :: 0 <= i < j < |r| ==> r[i] != r[j]
    ensures forall x :: x in r <==> x in LowerAll(VocabHits(t, TechAlternatives, 0)) || x in CapPhrases(t, 0)
    ensures InFirstOccurrenceOrder(r, LowerAll(VocabHits(t, TechAlternatives, 0)) + CapPhrases(t, 0))
  {
    Unique(LowerAll(VocabHits(t, TechAlternatives, 0)) + CapPhrases(t, 0))
  }

  /** Every technology is a vocabulary word or a capitalised phrase of the text, and
      every vocabulary hit is listed, lower-cased. */
  lemma TechnologiesShape(t: Bytes)
    ensures forall x :: x in Technologies(t) ==> x in TechAlternatives || IsCapPhrase(x)
    ensures forall h :: h in VocabHits(t, TechAlternatives, 0) ==> LowerStr(h) in Technologies(t)
  {
    var hits := VocabHits(t, TechAlternatives, 0);
    var low := LowerAll(hits);
    CapPhrasesShape(t, 0);
    forall x | x in low
      ensures x in TechAlternatives
    {
      var k :| 0 <= k < |low| && low[k] == x;
      assert hits[k] in hits;
    }
    forall h | h in hits
      ensures LowerStr(h) in Technologies(t)
    {
      var k :| 0 <= k < |hits| && hits[k] == h;
      assert low[k] in low + CapPhrases(t, 0);
    }
  }

  /** "React" gives both "react" (vocabulary) and "React" (capitalised phrase). */
  lemma TechnologiesExample()
    ensures Technologies("React") == ["react", "React"]
  {
    TechExampleVocab();
    TechExampleCaps();
    TechExampleLower();
    TechExampleUnique();
  }

  lemma TechExampleLower()
    ensures LowerAll(["React"]) == ["react"]
  {
    var r := LowerStr("React");
    assert r[0] == 'r' && r[1] == 'e' && r[2] == 'a' && r[3] == 'c' && r[4] == 't';
    assert r == "react";
  }

  lemma TechExampleUnique()
    ensures Unique(["react", "React"]) == ["react", "React"]
  {
    assert "React"[0] != "react"[0];
    assert ["react", "React"][1..] == ["React"];
    assert ["React"][1..] == [];
  }

  lemma TechExampleVocab()
    ensures VocabHits("React", TechAlternatives, 0) == ["React"]
  {
    var s := "React";
    TechExampleVocabAt();
    assert VocabHits(s, TechAlternatives, 5) == [];
    assert s[0..5] == s;
  }

  lemma TechExampleVocabAt()
    ensures VocabAt("React", 0, TechAlternatives, 0) == Some(5)
  {
    var s, alts := "React", TechAlternatives;
    assert Lower(s[0]) == 'r';
    assert alts[0][0] == 'p' && alts[1][0] == 'l' && alts[2][0] == 'v';
    assert MatchCI(s, 0, alts[3]);
    assert VocabAt(s, 0, alts, 3) == Some(5);
  }

  lemma TechExampleCaps()
    ensures CapPhrases("React", 0) == ["React"]
  {
    var s := "React";
    assert LowerRunEnd(s, 5) == 5;
    assert LowerRunEnd(s, 1) == 5;
    assert CapTail(s, 5) == Some(5);
    assert s[0..5] == s;
  }

  // ---------------------------------------------------------------------------
  // parse

  datatype ProjectItem = ProjectItem(
    name: Bytes, technologies: seq<Bytes>, description: Bytes, duration: Bytes, role: Bytes)

  /** The record one piece yields. */
  function MakeItem(t: Bytes): (r: ProjectItem)
    ensures Trimmed(r.name) && '\n' !in r.name && Trimmed(r.role) && '\n' !in r.role
    ensures Trimmed(r.description)
    ensures forall i, j :: 0 <= i < j < |r.technologies| ==> r.technologies[i] != r.technologies[j]
    ensures r.duration == "" || FourDigits(r.duration, 0)
  {
    ProjectItem(ProjectName(t), Technologies(t), ProjectDescription(t), YearRangeText(t), ProjectRole(t))
  }

  /** `if (trim($project))`: the piece counts unless it trims to "" or "0". */
  predicate Counts(t: Bytes) {
    !IsEmpty(Trim(t))
  }

  /** What the loop appends for one piece. */
  function ItemOf(t: Bytes): seq<ProjectItem> {
    if Counts(t) then [MakeItem(t)] else []
  }

  /** `parse`: the `foreach` over the pieces. */
  method Parse(text: Bytes) returns (items: seq<ProjectItem>)
    ensures items == Map(MakeItem, Filter(Counts, Pieces(text)))
  {
    items := AppendEach([], Pieces(text), ItemOf);
    GatherOnePerItem(ItemOf, Counts, MakeItem, Pieces(text));
  }
}
