/**
 * `ExperienceParser::parse`: splits an experience text before every year range
 * ("2019 - 2021", "2020 – Present") and turns each piece that is not blank into one
 * record with a title, a company, a duration, a description and achievements.
 */
module ExperienceParser {
  import opened PhpText
  import opened Patterns

  // ---------------------------------------------------------------------------
  // preg_split('/(?=\d{4}\s*[-–]\s*(?:present|\d{4}))/i', $experienceText)

  /** The pieces of the split from `last`, the search being at `i`. The pattern is a bare
      lookahead, so each match is empty: it ends the piece (an empty one when the piece has
      only just begun), the retry for a non-empty match at the same place fails, and the
      search goes on one byte further. */
  function SplitFrom(s: Bytes, last: nat, i: nat): (r: seq<Bytes>)
    requires last <= i <= |s|
    ensures |r| >= 1
    decreases |s| - i
  {
    if i == |s| then [s[last..]]
    else if YearRangeEnd(s, i).Some? then [s[last..i]] + SplitFrom(s, i, i + 1)
    else SplitFrom(s, last, i + 1)
  }

  function Pieces(s: Bytes): (r: seq<Bytes>)
    ensures |r| >= 1
  {
    SplitFrom(s, 0, 0)
  }

  lemma {:induction false} SplitFromConcat(s: Bytes, last: nat, i: nat)
    requires last <= i <= |s|
    ensures Concat(SplitFrom(s, last, i)) == s[last..]
    decreases |s| - i
  {
    if i == |s| {
      ConcatOne(s[last..]);
    } else if YearRangeEnd(s, i).Some? {
      SplitFromConcat(s, i, i + 1);
      ConcatCons(s[last..i], SplitFrom(s, i, i + 1));
      assert s[last..] == s[last..i] + s[i..];
    } else {
      SplitFromConcat(s, last, i + 1);
    }
  }

  /** The split loses nothing: the pieces put together give the text back. */
  lemma PiecesConcat(s: Bytes)
    ensures Concat(Pieces(s)) == s
  {
    SplitFromConcat(s, 0, 0);
    assert s[0..] == s;
  }

  /** How a year range starts at `p`: four digits and then a whitespace or dash byte. */
  predicate RangeHead(s: Bytes, p: nat) {
    FourDigits(s, p) && p + 4 < |s| && (IsSpace(s[p + 4]) || IsDashByte(s[p + 4]))
  }

  /** The piece starts like a year range. */
  predicate StartsLikeYearRange(t: Bytes) {
    RangeHead(t, 0)
  }

  /** Two year ranges cannot start within four bytes of each other: the fifth byte of
      the first is not a digit. */
  lemma RangesApart(s: Bytes, p: nat, q: nat)
    requires p < q && RangeHead(s, p) && FourDigits(s, q)
    ensures p + 5 <= q
  {
  }

  /** A piece that starts with a year range and holds at least its first five bytes
      starts like one. */
  lemma RangeStartsPiece(s: Bytes, last: nat, e: nat)
    requires last + 5 <= e <= |s| && RangeHead(s, last)
    ensures StartsLikeYearRange(s[last..e])
  {
    var t := s[last..e];
    assert t[0] == s[last] && t[1] == s[last + 1] && t[2] == s[last + 2] && t[3] == s[last + 3];
    assert t[4] == s[last + 4];
  }

  /** A piece that starts like a year range, put before pieces that all do. */
  lemma RangePieceThenRest(s: Bytes, last: nat, i: nat, rest: seq<Bytes>)
    requires last + 5 <= i <= |s| && RangeHead(s, last)
    requires forall t :: t in rest ==> StartsLikeYearRange(t)
    ensures forall t :: t in [s[last..i]] + rest ==> StartsLikeYearRange(t)
  {
    RangeStartsPiece(s, last, i);
  }

  /** The pieces from a split point `last` on all start like a year range. */
  lemma {:induction false} SplitFromAtRange(s: Bytes, last: nat, i: nat)
    requires last < i <= |s| && RangeHead(s, last)
    ensures forall t :: t in SplitFrom(s, last, i) ==> StartsLikeYearRange(t)
    decreases |s| - i
  {
    if i == |s| {
      RangeStartsPiece(s, last, |s|);
      assert s[last..|s|] == s[last..];
    } else if YearRangeEnd(s, i).Some? {
      RangesApart(s, last, i);
      SplitFromAtRange(s, i, i + 1);
      RangePieceThenRest(s, last, i, SplitFrom(s, i, i + 1));
    } else {
      SplitFromAtRange(s, last, i + 1);
    }
  }

  lemma {:induction false} SplitFromTail(s: Bytes, last: nat, i: nat)
    requires last <= i <= |s|
    ensures forall k :: 1 <= k < |SplitFrom(s, last, i)| ==> StartsLikeYearRange(SplitFrom(s, last, i)[k])
    decreases |s| - i
  {
    if i < |s| {
      if YearRangeEnd(s, i).Some? {
        SplitFromAtRange(s, i, i + 1);
      } else {
        SplitFromTail(s, last, i + 1);
      }
    }
  }

  /** Every piece after the first begins where a year range begins. (A range can still
      run on into the next piece when another one starts inside it, as in
      "2019 - 2020 - 2021".) */
  lemma PiecesStartWithYearRange(s: Bytes)
    ensures forall k :: 1 <= k < |Pieces(s)| ==> StartsLikeYearRange(Pieces(s)[k])
  {
    SplitFromTail(s, 0, 0);
  }

  /** A text that starts with a year range gives an empty first piece. */
  lemma PiecesLeadingRange(s: Bytes)
    requires YearRangeEnd(s, 0).Some?
    ensures Pieces(s)[0] == ""
  {
  }

  // ---------------------------------------------------------------------------
  // The header pattern /^(.*?)\s*(?:at|@|\||\b)\s*(.*?)$/im of extractJobTitle and
  // cleanDescription

  /** The alternation `(?:at|@|\||\b)` at `y`, branches in order: where it ends. */
  function SepAltEnd(s: Bytes, y: nat): (r: Option<nat>)
    requires y <= |s|
    ensures r.Some? ==> y <= r.value <= |s|
  {
    if MatchCI(s, y, "at") then Some(y + 2)
    else if y < |s| && (s[y] == '@' || s[y] == '|') then Some(y + 1)
    else if IsBoundary(s, y) then Some(y)
    else None
  }

  /** `\s*` and the alternation after the title group ends at `j`: the greedy `\s*` has
      reached `x` and gives bytes back one at a time. */
  function SepFrom(s: Bytes, j: nat, x: nat): (r: Option<nat>)
    requires j <= x <= |s|
    ensures r.Some? ==> j <= r.value <= |s|
    decreases x - j
  {
    var a := SepAltEnd(s, x);
    if a.Some? then a
    else if x == j then None
    else SepFrom(s, j, x - 1)
  }

  /** The lazy title group `(.*?)` from `j`: the first end, up to the line end `le`, after
      which the separator matches; as (group end, separator end). What follows,
      `\s*(.*?)$`, always matches. */
  function HeadGroup(s: Bytes, j: nat, le: nat): (r: Option<(nat, nat)>)
    requires j <= le <= |s|
    ensures r.Some? ==> j <= r.value.0 <= le && r.value.0 <= r.value.1 <= |s|
    decreases le - j
  {
    var a := SepFrom(s, j, SkipSpace(s, j));
    if a.Some? then Some((j, a.value))
    else if j == le then None
    else HeadGroup(s, j + 1, le)
  }

  /** The header pattern at `p`, as (title group end, match end). After the separator the
      greedy `\s*` may cross newlines, and the lazy `(.*?)` stops at the first `$`, which
      in multiline mode is before any "\n". */
  function HeaderAt(s: Bytes, p: nat): (r: Option<(nat, nat)>)
    requires p <= |s|
    ensures r.Some? ==> p <= r.value.0 <= LineEnd(s, p) && LineEnd(s, p) <= r.value.1 <= |s|
    ensures r.Some? ==> r.value.1 == |s| || s[r.value.1] == '\n'
    ensures r.Some? && p < |s| ==> p < r.value.1
  {
    if !IsLineStart(s, p) then None
    else
      var g := HeadGroup(s, p, LineEnd(s, p));
      if g.None? then None
      else
        var w := SkipSpace(s, g.value.1);
        Some((g.value.0, LineEnd(s, w)))
  }

  /** The first match at or after `i`, as (start, title group end). */
  function FirstHeader(s: Bytes, i: nat): (r: Option<(nat, nat)>)
    requires i <= |s|
    ensures r.Some? ==> i <= r.value.0 <= |s| && r.value.0 <= r.value.1 <= LineEnd(s, r.value.0)
    ensures r.Some? ==> HeaderAt(s, r.value.0).Some? && HeaderAt(s, r.value.0).value.0 == r.value.1
    decreases |s| - i
  {
    var h := HeaderAt(s, i);
    if h.Some? then Some((i, h.value.0))
    else if i == |s| then None
    else FirstHeader(s, i + 1)
  }

  /** `extractJobTitle`: the title group of the first match, trimmed, or "". */
  function JobTitle(t: Bytes): (r: Bytes)
    ensures Trimmed(r) && '\n' !in r
  {
    var h := FirstHeader(t, 0);
    if h.None? then ""
    else
      var (p, j) := h.value;
      TrimKeepsByteAbsent(t[p..j], '\n');
      Trim(t[p..j])
  }

  /** When the text starts, after any whitespace, with a letter, a digit or '_', `\b`
      matches there with an empty title group, so the title is "". This covers every
      piece that starts with a year range. */
  lemma JobTitleEmptyOnWordStart(t: Bytes)
    requires SkipSpace(t, 0) < |t| && IsWord(t[SkipSpace(t, 0)])
    ensures JobTitle(t) == ""
  {
    var x := SkipSpace(t, 0);
    assert IsBoundary(t, x);
    assert SepAltEnd(t, x).Some?;
    assert HeadGroup(t, 0, LineEnd(t, 0)).value.0 == 0;
    assert FirstHeader(t, 0) == Some((0, 0));
  }

  /** "• Dev" has the title "•": the bytes of '•' are not word bytes, so the first
      `\b` is before "Dev". */
  lemma JobTitleBulletExample()
    ensures JobTitle(Bullet + " Dev") == Bullet
  {
    assert Bullet + " Dev" == TitleExample;
    TitleExampleFirst();
    TitleExampleSlice();
  }

  lemma TitleExampleFirst()
    ensures FirstHeader(TitleExample, 0) == Some((0, 3))
  {
    TitleExampleGroup();
  }

  lemma TitleExampleSlice()
    ensures TitleExample[0..3] == Bullet && Trim(Bullet) == Bullet
  {
    TrimOfTrimmed(Bullet);
  }

  const TitleExample: Bytes := "\U{E2}\U{80}\U{A2} Dev"

  lemma TitleExampleMiss(j: nat)
    requires j < 3
    ensures HeadGroup(TitleExample, j, 7) == HeadGroup(TitleExample, j + 1, 7)
  {
    var s := TitleExample;
    assert s[0] == '\U{E2}' && s[1] == '\U{80}' && s[2] == '\U{A2}';
    assert Lower(s[j]) != "at"[0];
    assert SkipSpace(s, j) == j;
    assert SepAltEnd(s, j).None?;
  }

  lemma TitleExampleHit()
    ensures HeadGroup(TitleExample, 3, 7) == Some((3, 4))
  {
    var s := TitleExample;
    assert s[2] == '\U{A2}' && s[3] == ' ' && s[4] == 'D' && s[5] == 'e';
    assert SkipSpace(s, 3) == 4 by {
      assert SkipSpace(s, 4) == 4;
    }
    assert Lower(s[4]) != "at"[0];
    assert IsBoundary(s, 4);
    assert SepAltEnd(s, 4) == Some(4);
  }

  lemma TitleExampleHead()
    ensures HeadGroup(TitleExample, 0, 7) == Some((3, 4))
  {
    TitleExampleMiss(0);
    TitleExampleMiss(1);
    TitleExampleMiss(2);
    TitleExampleHit();
  }

  lemma TitleExampleLine()
    ensures |TitleExample| == 7 && LineEnd(TitleExample, 0) == 7
    ensures SkipSpace(TitleExample, 4) == 4 && LineEnd(TitleExample, 4) == 7
  {
    var s := TitleExample;
    assert s[4] == 'D';
    assert forall k :: 0 <= k < 7 ==> s[k] != '\n';
  }

  lemma TitleExampleGroup()
    ensures HeaderAt(TitleExample, 0) == Some((3, 7))
  {
    TitleExampleHead();
    TitleExampleLine();
  }

  // ---------------------------------------------------------------------------
  // extractCompany: /\bat\s+(.*?)(?:\s*[-–]\s*\d{4}|\s*\(|$)/i

  /** What may follow the company: `\s*[-–]\s*\d{4}`, `\s*\(` or `$`. Each `\s*` is
      followed by a byte it cannot take, so only its longest run can succeed. */
  predicate CompanyStop(s: Bytes, d: nat)
    requires d <= |s|
  {
    var u := SkipSpace(s, d);
    || (u < |s| && IsDashByte(s[u]) && FourDigits(s, SkipSpace(s, u + 1)))
    || (u < |s| && s[u] == '(')
    || AtDollar(s, d)
  }

  /** The lazy `(.*?)` from `d`: the first end, not past a "\n", where a stop follows. */
  function LazyCompany(s: Bytes, d: nat): (r: Option<nat>)
    requires d <= |s|
    ensures r.Some? ==> d <= r.value <= |s| && forall k :: d <= k < r.value ==> s[k] != '\n'
    ensures r.Some? ==> CompanyStop(s, r.value) && forall k :: d <= k < r.value ==> !CompanyStop(s, k)
    decreases |s| - d
  {
    if CompanyStop(s, d) then Some(d)
    else if d < |s| && s[d] != '\n' then LazyCompany(s, d + 1)
    else None
  }

  /** `\s+(.*?)` and the stop: the greedy `\s+` has reached `x` and gives bytes back
      down to `lo`, where it still holds one byte. */
  function CompanyFrom(s: Bytes, lo: nat, x: nat): (r: Option<(nat, nat)>)
    requires lo <= x <= |s|
    ensures r.Some? ==> lo <= r.value.0 <= r.value.1 <= |s|
    ensures r.Some? ==> forall k :: r.value.0 <= k < r.value.1 ==> s[k] != '\n'
    ensures r.Some? ==> r.value.0 <= x && LazyCompany(s, r.value.0) == Some(r.value.1)
    decreases x - lo
  {
    var d := LazyCompany(s, x);
    if d.Some? then Some((x, d.value))
    else if x == lo then None
    else CompanyFrom(s, lo, x - 1)
  }

  /** The company group when a match starts at `p`. */
  function CompanyAt(s: Bytes, p: nat): (r: Option<(nat, nat)>)
    requires p <= |s|
    ensures r.Some? ==> MatchCI(s, p, "at") && p + 3 <= r.value.0 <= r.value.1 <= |s|
    ensures r.Some? ==> forall k :: r.value.0 <= k < r.value.1 ==> s[k] != '\n'
    ensures r.Some? ==> IsBoundary(s, p) && forall k :: p + 2 <= k < r.value.0 ==> IsSpace(s[k])
    ensures r.Some? ==>
      CompanyStop(s, r.value.1) && forall d :: r.value.0 <= d < r.value.1 ==> !CompanyStop(s, d)
  {
    if IsBoundary(s, p) && MatchCI(s, p, "at") && p + 2 < |s| && IsSpace(s[p + 2])
    then CompanyFrom(s, p + 3, SkipSpace(s, p + 2))
    else None
  }

  /** No company match starts in `s[i..j]`. */
  predicate NoCompanyIn(s: Bytes, i: nat, j: nat)
    requires i <= j <= |s|
    decreases j - i
  {
    i == j || (CompanyAt(s, i).None? && NoCompanyIn(s, i + 1, j))
  }

  lemma {:induction false} NoCompanyInAt(s: Bytes, i: nat, j: nat, p: nat)
    requires i <= p < j <= |s| && NoCompanyIn(s, i, j)
    ensures CompanyAt(s, p).None?
    decreases p - i
  {
    if i < p {
      NoCompanyInAt(s, i + 1, j, p);
    }
  }

  /** Where the leftmost company match at or after `i` starts. */
  function CompanyStart(s: Bytes, i: nat): (r: Option<nat>)
    requires i <= |s|
    ensures r.Some? ==> i <= r.value <= |s| && CompanyAt(s, r.value).Some?
    ensures r.Some? ==> NoCompanyIn(s, i, r.value)
    ensures r.None? ==> forall q :: i <= q <= |s| ==> CompanyAt(s, q).None?
    decreases |s| - i
  {
    if CompanyAt(s, i).Some? then Some(i)
    else if i == |s| then None
    else CompanyStart(s, i + 1)
  }

  /** The company group of the leftmost match at or after `i`. */
  function FirstCompany(s: Bytes, i: nat): (r: Option<(nat, nat)>)
    requires i <= |s|
    ensures r.Some? ==> i + 3 <= r.value.0 <= r.value.1 <= |s|
    ensures r.Some? ==> forall k :: r.value.0 <= k < r.value.1 ==> s[k] != '\n'
    ensures r.Some? ==> ContainsCI(s, "at")
    ensures r.None? <==> forall q :: i <= q <= |s| ==> CompanyAt(s, q).None?
  {
    match CompanyStart(s, i)
    case None => None
    case Some(q) =>
      assert q + |"at"| <= |s| && MatchCI(s, q, "at");
      CompanyAt(s, q)
  }

  /** `extractCompany`: the company group, trimmed, or "". */
  function Company(t: Bytes): (r: Bytes)
    ensures Trimmed(r) && '\n' !in r
    ensures r != "" ==> ContainsCI(t, "at")
    ensures FirstCompany(t, 0).None? ==> r == ""
    ensures FirstCompany(t, 0).Some? ==> r == Trim(t[FirstCompany(t, 0).value.0..FirstCompany(t, 0).value.1])
  {
    var c := FirstCompany(t, 0);
    if c.None? then ""
    else
      var (a, b) := c.value;
      TrimKeepsByteAbsent(t[a..b], '\n');
      Trim(t[a..b])
  }

  /** "at Bo (x)" has the company "Bo": the group stops before " (". */
  lemma CompanyExample()
    ensures Company("at Bo (x)") == "Bo"
  {
    CompanyExampleFirst();
    CompanyExampleSlice();
  }

  lemma CompanyExampleMatch()
    ensures CompanyAt("at Bo (x)", 0) == Some((3, 5))
  {
    var s := "at Bo (x)";
    assert s[0] == 'a' && s[1] == 't' && s[2] == ' ' && s[3] == 'B' && s[4] == 'o' && s[5] == ' ' && s[6] == '(';
    assert MatchCI(s, 0, "at");
    assert SkipSpace(s, 2) == 3 by {
      assert SkipSpace(s, 3) == 3;
    }
    assert !CompanyStop(s, 3) && !CompanyStop(s, 4);
    assert SkipSpace(s, 5) == 6 by {
      assert SkipSpace(s, 6) == 6;
    }
    assert LazyCompany(s, 3) == Some(5);
  }

  lemma CompanyExampleFirst()
    ensures FirstCompany("at Bo (x)", 0) == Some((3, 5))
  {
    CompanyExampleMatch();
  }

  lemma CompanyExampleSlice()
    ensures "at Bo (x)"[3..5] == "Bo" && Trim("Bo") == "Bo"
  {
    TrimOfTrimmed("Bo");
  }

  // ---------------------------------------------------------------------------
  // cleanDescription

  /** A byte the header pattern can anchor on: a word byte for `\b`, '@' or '|'. */
  predicate IsAnchor(c: char) {
    IsWord(c) || c == '@' || c == '|'
  }

  /** `preg_replace` of the header pattern with '' from `q`: each match is dropped and the
      search resumes where it ended; other bytes are kept. Matches are never empty. */
  function DropHeaders(s: Bytes, q: nat): (r: Bytes)
    requires q <= |s|
    decreases |s| - q
  {
    if q == |s| then []
    else
      var h := HeaderAt(s, q);
      if h.Some? then DropHeaders(s, h.value.1) else [s[q]] + DropHeaders(s, q + 1)
  }

  /** `preg_replace` of the year-range pattern with '' from `q`. */
  function DropYearRanges(s: Bytes, q: nat): (r: Bytes)
    requires q <= |s|
    decreases |s| - q
  {
    if q == |s| then []
    else
      var e := YearRangeEnd(s, q);
      if e.Some? then DropYearRanges(s, e.value) else [s[q]] + DropYearRanges(s, q + 1)
  }

  /** `cleanDescription`: the header lines and the year ranges removed, whitespace runs
      made single spaces, the ends trimmed. */
  function ExperienceDescription(t: Bytes): (r: Bytes)
    ensures Trimmed(r) && SingleSpaced(r)
  {
    var c := Collapse(DropYearRanges(DropHeaders(t, 0), 0));
    TrimKeepsSingleSpaced(c);
    Trim(c)
  }

  /** From a line start, the header pattern matches as soon as the line holds an anchor
      byte that is the first of the line. */
  lemma {:induction false} HeadGroupAtAnchor(s: Bytes, j: nat, le: nat, k: nat)
    requires j <= k < le <= |s| && IsAnchor(s[k])
    requires k == 0 || !IsWord(s[k - 1])
    ensures HeadGroup(s, j, le).Some?
    decreases k - j
  {
    if j < k {
      HeadGroupAtAnchor(s, j + 1, le, k);
    } else {
      assert SkipSpace(s, k) == k;
      assert SepAltEnd(s, k).Some?;
    }
  }

  /** A line where the header pattern does not match holds no anchor byte. */
  lemma {:induction false} NoHeaderNoAnchor(s: Bytes, p: nat, k: nat)
    requires p <= k < |s| && k < LineEnd(s, p) && IsLineStart(s, p) && HeaderAt(s, p).None?
    ensures !IsAnchor(s[k])
    decreases k - p
  {
    if k > p {
      NoHeaderNoAnchor(s, p, k - 1);
    }
    if IsAnchor(s[k]) {
      HeadGroupAtAnchor(s, p, LineEnd(s, p), k);
    }
  }

  /** What is left after dropping the headers from `q` holds no anchor byte, when `q`
      starts a line or the rest of its line holds none. */
  lemma {:induction false} DropHeadersNoAnchor(s: Bytes, q: nat)
    requires q <= |s|
    requires IsLineStart(s, q) || forall k :: q <= k < LineEnd(s, q) ==> !IsAnchor(s[k])
    ensures forall k :: 0 <= k < |DropHeaders(s, q)| ==> !IsAnchor(DropHeaders(s, q)[k])
    decreases |s| - q
  {
    if q < |s| {
      var h := HeaderAt(s, q);
      if h.Some? {
        var e := h.value.1;
        assert LineEnd(s, e) == e;
        DropHeadersNoAnchor(s, e);
      } else {
        if IsLineStart(s, q) {
          forall k | q <= k < LineEnd(s, q)
            ensures !IsAnchor(s[k])
          {
            NoHeaderNoAnchor(s, q, k);
          }
        }
        assert !IsAnchor(s[q]);
        if s[q] != '\n' {
          assert LineEnd(s, q + 1) == LineEnd(s, q);
        }
        DropHeadersNoAnchor(s, q + 1);
        var r := DropHeaders(s, q + 1);
        assert forall k :: 0 < k < |[s[q]] + r| ==> ([s[q]] + r)[k] == r[k - 1];
      }
    }
  }

  /** Text without digits has no year range to drop. */
  lemma {:induction false} DropYearRangesNoDigit(s: Bytes, q: nat)
    requires q <= |s| && forall k :: q <= k < |s| ==> !IsDigit(s[k])
    ensures DropYearRanges(s, q) == s[q..]
    decreases |s| - q
  {
    if q < |s| {
      DropYearRangesNoDigit(s, q + 1);
      assert s[q..] == [s[q]] + s[q + 1..];
    }
  }

  /** The text holds no anchor byte. */
  predicate AnchorFree(s: Bytes) {
    forall k :: 0 <= k < |s| ==> !IsAnchor(s[k])
  }

  /** Collapsing whitespace adds no anchor byte. */
  lemma {:induction false} CollapseAnchorFree(s: Bytes)
    requires AnchorFree(s)
    ensures AnchorFree(Collapse(s))
    decreases |s|
  {
    if s != [] {
      var n := if IsSpace(s[0]) then SkipSpace(s, 0) else 1;
      var rest := s[n..];
      assert AnchorFree(rest) by {
        assert forall k :: 0 <= k < |rest| ==> rest[k] == s[n + k];
      }
      CollapseAnchorFree(rest);
      var r := Collapse(s);
      assert forall k :: 1 <= k < |r| ==> r[k] == Collapse(rest)[k - 1];
    }
  }

  /** Trimming adds no anchor byte. */
  lemma TrimAnchorFree(s: Bytes)
    requires AnchorFree(s)
    ensures AnchorFree(Trim(s))
  {
    TrimIsInfix(s);
    var o := TrimOffset(s);
    var t := Trim(s);
    forall k | 0 <= k < |t|
      ensures !IsAnchor(t[k])
    {
      assert t[k] == s[o + k];
    }
  }

  /** The header pattern swallows every line that holds a letter, a digit, '_', '@' or
      '|' (and can run on over the whitespace after it into the next line), so the
      description never holds any of these bytes. */
  lemma DescriptionHasNoAnchor(t: Bytes)
    ensures forall k :: 0 <= k < |ExperienceDescription(t)| ==> !IsAnchor(ExperienceDescription(t)[k])
  {
    var d := DropHeaders(t, 0);
    DropHeadersNoAnchor(t, 0);
    DropYearRangesNoDigit(d, 0);
    assert d[0..] == d;
    CollapseAnchorFree(d);
    TrimAnchorFree(Collapse(d));
  }

  // ---------------------------------------------------------------------------
  // extractAchievements: /(?:•|\*|\-)\s*(.+?)(?=\n|$)/

  /** A marker '•', '*' or '-' at `p`: where it ends. */
  function ItemMarkerEnd(s: Bytes, p: nat): (r: Option<nat>)
    requires p <= |s|
    ensures r.Some? ==> p < r.value <= |s|
  {
    if MatchAt(s, p, Bullet) then Some(p + 3)
    else if p < |s| && (s[p] == '*' || s[p] == '-') then Some(p + 1)
    else None
  }

  /** The capture of an achievement match that starts at `p`: a marker, blanks, then the
      rest of a line. */
  function ItemCapture(s: Bytes, p: nat): (r: Option<(nat, nat)>)
    requires p <= |s|
    ensures r.Some? ==> p < r.value.0 < r.value.1 <= |s|
    ensures r.Some? ==> forall k :: r.value.0 <= k < r.value.1 ==> s[k] != '\n'
    ensures r.Some? ==> r.value.1 == |s| || s[r.value.1] == '\n'
    ensures r.Some? ==>
      ItemMarkerEnd(s, p).Some? && forall k :: ItemMarkerEnd(s, p).value <= k < r.value.0 ==> IsSpace(s[k])
  {
    match ItemMarkerEnd(s, p)
    case None => None
    case Some(m) => LineRest(s, m)
  }

  /** The text an achievement match at `p` captures. */
  function CapturedAt(s: Bytes, p: nat): Bytes
    requires p <= |s| && ItemCapture(s, p).Some?
  {
    s[ItemCapture(s, p).value.0..ItemCapture(s, p).value.1]
  }

  /** `preg_match_all` of the achievement pattern from `i`: the captures. */
  function ItemsFrom(s: Bytes, i: nat): (r: seq<Bytes>)
    requires i <= |s|
    ensures forall x :: x in r ==> '\n' !in x
    decreases |s| - i
  {
    if i == |s| then []
    else
      var c := ItemCapture(s, i);
      if c.Some? then
        var (a, b) := c.value;
        assert forall k :: 0 <= k < b - a ==> s[a..b][k] == s[a + k];
        [s[a..b]] + ItemsFrom(s, b)
      else ItemsFrom(s, i + 1)
  }

  lemma ItemsStep(s: Bytes, i: nat)
    requires i < |s|
    ensures ItemCapture(s, i).Some? ==>
      ItemsFrom(s, i) == [CapturedAt(s, i)] + ItemsFrom(s, ItemCapture(s, i).value.1)
    ensures ItemCapture(s, i).None? ==> ItemsFrom(s, i) == ItemsFrom(s, i + 1)
  {
  }

  /** Every capture is the text of a match that starts at or after `i`. */
  lemma {:induction false} ItemsFromSound(s: Bytes, i: nat)
    requires i <= |s|
    ensures forall x :: x in ItemsFrom(s, i) ==>
      exists p :: i <= p < |s| && ItemCapture(s, p).Some? && x == CapturedAt(s, p)
    decreases |s| - i
  {
    if i < |s| {
      ItemsStep(s, i);
      if ItemCapture(s, i).Some? {
        ItemsFromSound(s, ItemCapture(s, i).value.1);
      } else {
        ItemsFromSound(s, i + 1);
      }
    }
  }

  /** A match at `q` is captured when no earlier match reaches past `q`: the search resumes
      where each match ends. */
  lemma {:induction false} ItemsFromComplete(s: Bytes, i: nat, q: nat)
    requires i <= q < |s| && ItemCapture(s, q).Some?
    requires forall p :: i <= p < q && ItemCapture(s, p).Some? ==> ItemCapture(s, p).value.1 <= q
    ensures CapturedAt(s, q) in ItemsFrom(s, i)
    decreases q - i
  {
    ItemsStep(s, i);
    if i < q {
      if ItemCapture(s, i).Some? {
        ItemsFromComplete(s, ItemCapture(s, i).value.1, q);
      } else {
        ItemsFromComplete(s, i + 1, q);
      }
    }
  }

  /** `extractAchievements`: the captures, each trimmed. */
  function Achievements(t: Bytes): (r: seq<Bytes>)
    ensures forall x :: x in r ==> Trimmed(x) && '\n' !in x
  {
    var items := ItemsFrom(t, 0);
    forall x | x in items ensures '\n' !in Trim(x) {
      TrimKeepsByteAbsent(x, '\n');
    }
    Map(Trim, items)
  }

  /** Each achievement is the trimmed text of a match in the text. */
  lemma AchievementsSound(t: Bytes)
    ensures forall y :: y in Achievements(t) ==>
      exists p :: 0 <= p < |t| && ItemCapture(t, p).Some? && y == Trim(CapturedAt(t, p))
  {
    var items := ItemsFrom(t, 0);
    ItemsFromSound(t, 0);
    forall y | y in Achievements(t)
      ensures exists p :: 0 <= p < |t| && ItemCapture(t, p).Some? && y == Trim(CapturedAt(t, p))
    {
      var k :| 0 <= k < |items| && y == Trim(items[k]);
      assert items[k] in items;
    }
  }

  /** Every match that no earlier match overlaps gives an achievement. */
  lemma AchievementsComplete(t: Bytes, q: nat)
    requires q < |t| && ItemCapture(t, q).Some?
    requires forall p :: 0 <= p < q && ItemCapture(t, p).Some? ==> ItemCapture(t, p).value.1 <= q
    ensures Trim(CapturedAt(t, q)) in Achievements(t)
  {
    ItemsFromComplete(t, 0, q);
    var items := ItemsFrom(t, 0);
    var k :| 0 <= k < |items| && items[k] == CapturedAt(t, q);
    assert Achievements(t)[k] == Trim(CapturedAt(t, q));
  }

  /** The byte can start no marker. */
  predicate NoMarkerByte(c: char) {
    c != '*' && c != '-' && c != Bullet[0]
  }

  /** A stretch without marker bytes yields no achievement. */
  lemma {:induction false} ItemsSkip(s: Bytes, i: nat, j: nat)
    requires i <= j <= |s| && forall k :: i <= k < j ==> NoMarkerByte(s[k])
    ensures ItemsFrom(s, i) == ItemsFrom(s, j)
    decreases j - i
  {
    if i < j {
      ItemsSkip(s, i + 1, j);
    }
  }

  /** Without a marker byte there are no achievements. */
  lemma ItemsNeedMarker(s: Bytes)
    requires forall k :: 0 <= k < |s| ==> NoMarkerByte(s[k])
    ensures Achievements(s) == []
  {
    ItemsSkip(s, 0, |s|);
  }

  /** The dash of "2020 - 2021" is a marker: the text has the achievement "2021". */
  lemma AchievementsExample()
    ensures Achievements("2020 - 2021") == ["2021"]
  {
    AchievementsExampleItems();
    AchievementsExampleTrim();
  }

  lemma AchievementsExampleHit()
    ensures ItemsFrom("2020 - 2021", 5) == ["2021"]
  {
    var s := "2020 - 2021";
    assert s[5] == '-' && s[6] == ' ' && s[7] == '2';
    assert !MatchAt(s, 5, Bullet);
    assert SkipSpace(s, 6) == 7 by {
      assert SkipSpace(s, 7) == 7;
    }
    assert LineEnd(s, 8) == 11;
    assert LineRest(s, 6) == Some((7, 11));
    assert s[7..11] == "2021";
  }

  lemma AchievementsExampleItems()
    ensures ItemsFrom("2020 - 2021", 0) == ["2021"]
  {
    var s := "2020 - 2021";
    assert s[0] == '2' && s[1] == '0' && s[2] == '2' && s[3] == '0' && s[4] == ' ';
    ItemsSkip(s, 0, 5);
    AchievementsExampleHit();
  }

  lemma AchievementsExampleTrim()
    ensures Map(Trim, ["2021"]) == ["2021"]
  {
    TrimOfTrimmed("2021");
  }

  // ---------------------------------------------------------------------------
  // parse

  datatype Experience = Experience(
    title: Bytes, company: Bytes, duration: Bytes, description: Bytes, achievements: seq<Bytes>)

  /** The record one piece yields. */
  function MakeExperience(t: Bytes): (r: Experience)
    ensures Trimmed(r.title) && '\n' !in r.title && Trimmed(r.company) && '\n' !in r.company
    ensures r.duration == "" || FourDigits(r.duration, 0)
    ensures Trimmed(r.description) && SingleSpaced(r.description)
    ensures forall x :: x in r.achievements ==> Trimmed(x) && '\n' !in x
  {
    Experience(JobTitle(t), Company(t), YearRangeText(t), ExperienceDescription(t), Achievements(t))
  }

  /** `if (trim($entry))`: the piece counts unless it trims to "" or "0". */
  predicate Counts(t: Bytes) {
    !IsEmpty(Trim(t))
  }

  /** What the loop appends for one piece. */
  function ExperienceOf(t: Bytes): seq<Experience> {
    if Counts(t) then [MakeExperience(t)] else []
  }

  /** `parse`: the `foreach` over the pieces. */
  method Parse(text: Bytes) returns (entries: seq<Experience>)
    ensures entries == Map(MakeExperience, Filter(Counts, Pieces(text)))
  {
    entries := AppendEach([], Pieces(text), ExperienceOf);
    GatherOnePerItem(ExperienceOf, Counts, MakeExperience, Pieces(text));
  }
}
