/**
 * Byte-string primitives shared by the résumé extractors.
 *
 * PHP strings are byte strings and every pattern of the extractors is compiled
 * without the `u` flag, so a `Bytes` value is a `string` whose chars each stand
 * for one byte (a multi-byte UTF-8 character such as '•' is three chars).
 * This module gives the PCRE character classes as they behave without `u`
 * (`\s`, `\w`, `\d`, ASCII-only case folding), PHP's `trim`, `empty`,
 * `strtolower`, `explode`/`implode` on "\n", and `preg_replace('/\s+/', ' ', …)`.
 */
module PhpText {

  datatype Option<+T> = None | Some(value: T)

  /** A PHP string: every char stands for one byte. */
  type Bytes = string

  /** `\s` without the u flag: space, \t, \n, \v, \f and \r. */
  predicate IsSpace(c: char) {
    c == ' ' || c == '\t' || c == '\n' || c == '\U{B}' || c == '\U{C}' || c == '\r'
  }

  predicate IsDigit(c: char) { '0' <= c <= '9' }
  predicate IsUpper(c: char) { 'A' <= c <= 'Z' }
  predicate IsLower(c: char) { 'a' <= c <= 'z' }
  predicate IsLetter(c: char) { IsUpper(c) || IsLower(c) }

  /** `\w` without the u flag: ASCII letters, digits and '_'. */
  predicate IsWord(c: char) { IsLetter(c) || IsDigit(c) || c == '_' }

  /** The bytes PHP's `trim` strips by default: " \t\n\r\0\x0B" (form feed is not one of them). */
  predicate IsTrimByte(c: char) {
    c == ' ' || c == '\t' || c == '\n' || c == '\r' || c == '\0' || c == '\U{B}'
  }

  function Lower(c: char): char { if IsUpper(c) then (c as int + 32) as char else c }
  function Upper(c: char): char { if IsLower(c) then (c as int - 32) as char else c }

  /** `strtolower`, which maps only the ASCII letters. */
  function LowerStr(s: Bytes): (r: Bytes)
    ensures |r| == |s|
    ensures forall i :: 0 <= i < |s| ==> r[i] == Lower(s[i])
  {
    if s == [] then [] else [Lower(s[0])] + LowerStr(s[1..])
  }

  /** `ucfirst`: upper-cases the first byte when it is an ASCII letter. */
  function Ucfirst(s: Bytes): (r: Bytes)
    ensures |r| == |s|
    ensures |s| > 0 ==> r[0] == Upper(s[0]) && r[1..] == s[1..]
  {
    if s == [] then [] else [Upper(s[0])] + s[1..]
  }

  /** PHP `empty()` on a string: "" and "0" are empty. */
  predicate IsEmpty(s: Bytes) { s == "" || s == "0" }

  // ---------------------------------------------------------------------------
  // Positions and matching

  /** The literal `w` occurs at position `i` of `s`. */
  predicate MatchAt(s: Bytes, i: nat, w: Bytes) {
    i + |w| <= |s| && s[i..i + |w|] == w
  }

  /** A literal found in a slice is found in the whole text, at the shifted position. */
  lemma MatchAtSlice(s: Bytes, lo: nat, hi: nat, i: nat, w: Bytes)
    requires lo <= hi <= |s| && MatchAt(s[lo..hi], i, w)
    ensures MatchAt(s, lo + i, w)
  {
    var t := s[lo..hi];
    assert t[i..i + |w|] == w;
    forall k | 0 <= k < |w|
      ensures s[lo + i..lo + i + |w|][k] == w[k]
    {
      assert t[i..i + |w|][k] == t[i + k] == s[lo + i + k];
    }
    assert s[lo + i..lo + i + |w|] == w;
  }

  /** The lower-case literal `w` occurs at position `i` of `s`, ignoring ASCII case (`/i`). */
  predicate MatchCI(s: Bytes, i: nat, w: Bytes) {
    i + |w| <= |s| && forall k :: 0 <= k < |w| ==> Lower(s[i + k]) == w[k]
  }

  /** `str_contains`. */
  predicate Contains(s: Bytes, w: Bytes) {
    exists i: nat :: i + |w| <= |s| && MatchAt(s, i, w)
  }

  /** `stripos(s, w) !== false` for a lower-case `w`. */
  predicate ContainsCI(s: Bytes, w: Bytes) {
    exists i: nat :: i + |w| <= |s| && MatchCI(s, i, w)
  }

  /** The first position at or after `i` holding `c`, or `|s|`. */
  function IndexFrom(s: Bytes, c: char, i: nat): (j: nat)
    requires i <= |s|
    ensures i <= j <= |s|
    ensures forall k :: i <= k < j ==> s[k] != c
    ensures j == |s| || s[j] == c
    decreases |s| - i
  {
    if i == |s| || s[i] == c then i else IndexFrom(s, c, i + 1)
  }

  /** The end of the line holding position `i`: the next "\n" or the end of the text. */
  function LineEnd(s: Bytes, i: nat): (j: nat)
    requires i <= |s|
    ensures i <= j <= |s|
    ensures forall k :: i <= k < j ==> s[k] != '\n'
    ensures j == |s| || s[j] == '\n'
  {
    IndexFrom(s, '\n', i)
  }

  /** Where a greedy `\s*` starting at `i` stops. */
  function SkipSpace(s: Bytes, i: nat): (j: nat)
    requires i <= |s|
    ensures i <= j <= |s|
    ensures forall k :: i <= k < j ==> IsSpace(s[k])
    ensures j == |s| || !IsSpace(s[j])
    decreases |s| - i
  {
    if i == |s| || !IsSpace(s[i]) then i else SkipSpace(s, i + 1)
  }

  /** `\b`: exactly one of the bytes around position `p` is a word byte. */
  predicate IsBoundary(s: Bytes, p: nat)
    requires p <= |s|
  {
    (p > 0 && IsWord(s[p - 1])) != (p < |s| && IsWord(s[p]))
  }

  /** `p` is where `^` matches in multiline mode: the start of the text or just after
      a "\n" that is not the last byte. */
  predicate IsLineStart(s: Bytes, p: nat)
    requires p <= |s|
  {
    p == 0 || (p < |s| && s[p - 1] == '\n')
  }

  /** `$` without the m flag: the end of the text or just before a final "\n". */
  predicate AtDollar(s: Bytes, p: nat)
    requires p <= |s|
  {
    p == |s| || (p + 1 == |s| && s[p] == '\n')
  }

  /** A case-insensitive match fixes the first byte up to case. */
  lemma MatchCIHead(s: Bytes, i: nat, w: Bytes)
    requires MatchCI(s, i, w) && |w| > 0
    ensures Lower(s[i]) == w[0]
  {
    assert Lower(s[i + 0]) == w[0];
  }

  /** A case-insensitive match is an equality after `strtolower`. */
  lemma MatchCILower(s: Bytes, i: nat, w: Bytes)
    requires i + |w| <= |s|
    ensures MatchCI(s, i, w) <==> LowerStr(s[i..i + |w|]) == w
  {
    var x := s[i..i + |w|];
    assert forall k :: 0 <= k < |w| ==> x[k] == s[i + k];
    if MatchCI(s, i, w) {
      assert forall k :: 0 <= k < |w| ==> LowerStr(x)[k] == Lower(x[k]) == w[k];
    }
    if LowerStr(x) == w {
      assert forall k :: 0 <= k < |w| ==> Lower(s[i + k]) == LowerStr(x)[k] == w[k];
    }
  }

  /** Lower-casing first changes no case-insensitive match. */
  lemma MatchCIOfLower(s: Bytes, i: nat, w: Bytes)
    ensures MatchCI(LowerStr(s), i, w) <==> MatchCI(s, i, w)
  {
    var l := LowerStr(s);
    if i + |w| <= |s| {
      assert forall k :: i <= k < i + |w| ==> Lower(l[k]) == Lower(s[k]);
      if MatchCI(s, i, w) {
        assert forall k :: 0 <= k < |w| ==> Lower(l[i + k]) == w[k];
      }
      if MatchCI(l, i, w) {
        assert forall k :: 0 <= k < |w| ==> Lower(s[i + k]) == w[k];
      }
    }
  }

  /** A match found in a suffix is a match in the whole text. */
  lemma MatchCISuffix(s: Bytes, i: nat, j: nat, w: Bytes)
    requires i <= |s|
    ensures MatchCI(s[i..], j, w) <==> MatchCI(s, i + j, w)
  {
    if i + j + |w| <= |s| {
      assert forall k :: 0 <= k < |w| ==> (Lower(s[i..][j + k]) == w[k] <==> Lower(s[i + j + k]) == w[k]);
    }
  }

  /** Searching the lower-cased text is a case-insensitive search. */
  lemma ContainsLower(s: Bytes, w: Bytes)
    requires forall k :: 0 <= k < |w| ==> !IsUpper(w[k])
    ensures Contains(LowerStr(s), w) <==> ContainsCI(s, w)
  {
    if Contains(LowerStr(s), w) {
      var i: nat :| i + |w| <= |s| && MatchAt(LowerStr(s), i, w);
      assert forall k :: 0 <= k < |w| ==> LowerStr(s)[i..i + |w|][k] == w[k] == Lower(s[i + k]);
      assert MatchCI(s, i, w);
    }
    if ContainsCI(s, w) {
      var i: nat :| i + |w| <= |s| && MatchCI(s, i, w);
      assert forall k :: 0 <= k < |w| ==> LowerStr(s)[i..i + |w|][k] == Lower(s[i + k]) == w[k];
      assert MatchAt(LowerStr(s), i, w);
    }
  }

  lemma AppendAssoc(x: Bytes, y: Bytes, z: Bytes)
    ensures x + (y + z) == (x + y) + z
  {
  }

  lemma ConsSlice(s: Bytes, i: nat, j: nat)
    requires i < j <= |s|
    ensures [s[i]] + s[i + 1..j] == s[i..j]
  {
  }

  predicate IsSuffix(r: Bytes, s: Bytes) {
    |r| <= |s| && s[|s| - |r|..] == r
  }

  /** A word whose first byte, up to case, is nowhere in `s` does not occur in `s`. */
  lemma ContainsCINeedsHead(s: Bytes, w: Bytes)
    requires |w| > 0 && forall k :: 0 <= k < |s| ==> Lower(s[k]) != w[0]
    ensures !ContainsCI(s, w)
  {
    if ContainsCI(s, w) {
      var i: nat :| i + |w| <= |s| && MatchCI(s, i, w);
      MatchCIHead(s, i, w);
    }
  }

  lemma ContainsCIInfix(s: Bytes, a: nat, b: nat, w: Bytes)
    requires a <= b <= |s|
    requires ContainsCI(s[a..b], w)
    ensures ContainsCI(s, w)
  {
    var i: nat :| i + |w| <= b - a && MatchCI(s[a..b], i, w);
    assert forall k :: 0 <= k < |w| ==> (Lower(s[a..b][i + k]) == w[k] <==> Lower(s[a + i + k]) == w[k]);
    assert MatchCI(s, a + i, w);
  }

  // ---------------------------------------------------------------------------
  // trim

  function TrimStart(s: Bytes): (r: Bytes)
    ensures |r| <= |s| && r == s[|s| - |r|..]
    ensures r == [] || !IsTrimByte(r[0])
  {
    if |s| > 0 && IsTrimByte(s[0]) then TrimStart(s[1..]) else s
  }

  function TrimEnd(s: Bytes): (r: Bytes)
    ensures |r| <= |s| && r == s[..|r|]
    ensures r == [] || !IsTrimByte(r[|r| - 1])
  {
    if |s| > 0 && IsTrimByte(s[|s| - 1]) then TrimEnd(s[..|s| - 1]) else s
  }

  /** Neither end of `r` is a byte that `trim` strips. */
  predicate Trimmed(r: Bytes) {
    r == [] || (!IsTrimByte(r[0]) && !IsTrimByte(r[|r| - 1]))
  }

  /** PHP `trim` with its default byte set. */
  function Trim(s: Bytes): (r: Bytes)
    ensures |r| <= |s|
    ensures Trimmed(r)
    decreases |s|
  {
    if |s| > 0 && IsTrimByte(s[0]) then Trim(s[1..])
    else
      var r := TrimEnd(s);
      assert r != [] ==> r[0] == s[0];
      r
  }

  /** `trim` strips the front first and then the back. */
  lemma {:induction false} TrimIsEndOfStart(s: Bytes)
    ensures Trim(s) == TrimEnd(TrimStart(s))
    decreases |s|
  {
    if |s| > 0 && IsTrimByte(s[0]) {
      TrimIsEndOfStart(s[1..]);
    }
  }

  /** Where `Trim(s)` starts inside `s`. */
  function TrimOffset(s: Bytes): nat
  {
    |s| - |TrimStart(s)|
  }

  lemma TrimIsInfix(s: Bytes)
    ensures TrimOffset(s) + |Trim(s)| <= |s|
    ensures Trim(s) == s[TrimOffset(s)..TrimOffset(s) + |Trim(s)|]
  {
    var t := TrimStart(s);
    var e := TrimEnd(t);
    TrimIsEndOfStart(s);
    assert Trim(s) == e && TrimOffset(s) == |s| - |t|;
    PrefixOfSuffix(s, |s| - |t|, t, e);
  }

  /** A prefix `e` of the suffix `t` of `s` that starts at `o` is the slice of `s` at `o`. */
  lemma PrefixOfSuffix(s: Bytes, o: nat, t: Bytes, e: Bytes)
    requires o <= |s| && t == s[o..] && |e| <= |t| && e == t[..|e|]
    ensures o + |e| <= |s| && e == s[o..o + |e|]
  {
  }

  /** A byte absent from `s` is absent from `Trim(s)`. */
  lemma TrimKeepsByteAbsent(s: Bytes, c: char)
    requires c !in s
    ensures c !in Trim(s)
  {
    TrimIsInfix(s);
  }

  lemma {:induction false} TrimStartKeeps(s: Bytes, i: nat)
    requires i < |s| && !IsTrimByte(s[i])
    ensures |TrimStart(s)| >= |s| - i
  {
    if IsTrimByte(s[0]) {
      TrimStartKeeps(s[1..], i - 1);
    }
  }

  lemma {:induction false} TrimEndKeeps(s: Bytes, i: nat)
    requires i < |s| && !IsTrimByte(s[i])
    ensures |TrimEnd(s)| > i
  {
    if IsTrimByte(s[|s| - 1]) {
      TrimEndKeeps(s[..|s| - 1], i);
    }
  }

  /** `trim` of a text holding a byte it does not strip is not empty. */
  lemma TrimNotEmpty(s: Bytes, i: nat)
    requires i < |s| && !IsTrimByte(s[i])
    ensures Trim(s) != []
  {
    TrimIsEndOfStart(s);
    TrimStartKeeps(s, i);
    var t := TrimStart(s);
    var off := |s| - |t|;
    assert t[i - off] == s[i];
    TrimEndKeeps(t, i - off);
  }

  lemma TrimOfTrimmed(s: Bytes)
    requires Trimmed(s)
    ensures Trim(s) == s
  {
  }

  lemma TrimIdempotent(s: Bytes)
    ensures Trim(Trim(s)) == Trim(s)
  {
    TrimOfTrimmed(Trim(s));
  }

  /** A search for the lower-case literal `w` that fails in `s` fails in `Trim(s)` too. */
  lemma TrimKeepsAbsence(s: Bytes, w: Bytes)
    requires !ContainsCI(s, w)
    ensures !ContainsCI(Trim(s), w)
  {
    TrimIsInfix(s);
    if ContainsCI(Trim(s), w) {
      ContainsCIInfix(s, TrimOffset(s), TrimOffset(s) + |Trim(s)|, w);
    }
  }

  // ---------------------------------------------------------------------------
  // explode("\n", …) and implode("\n", …)

  /** `explode("\n", s)`: never empty; "" gives [""]. */
  function Lines(s: Bytes): (r: seq<Bytes>)
    ensures |r| >= 1
    ensures forall k :: 0 <= k < |r| ==> '\n' !in r[k]
    ensures r[0] == s[..LineEnd(s, 0)]
    decreases |s|
  {
    var e := LineEnd(s, 0);
    if e == |s| then [s] else [s[..e]] + Lines(s[e + 1..])
  }

  /** `implode("\n", ls)`. */
  function JoinLines(ls: seq<Bytes>): Bytes
  {
    if |ls| == 0 then "" else if |ls| == 1 then ls[0] else ls[0] + "\n" + JoinLines(ls[1..])
  }

  /** `implode` undoes `explode`. */
  lemma {:induction false} JoinLinesOfLines(s: Bytes)
    ensures JoinLines(Lines(s)) == s
    decreases |s|, 1
  {
    var e := LineEnd(s, 0);
    if e < |s| {
      var ls := Lines(s);
      RestLines(s);
      assert JoinLines(ls) == ls[0] + "\n" + JoinLines(ls[1..]);
      assert s == s[..e] + "\n" + s[e + 1..];
    }
  }

  /** Dropping leading lines before joining keeps a suffix of the joined text. */
  lemma {:induction false} JoinLinesSuffix(ls: seq<Bytes>, k: nat)
    requires k <= |ls|
    ensures IsSuffix(JoinLines(ls[k..]), JoinLines(ls))
  {
    if k == |ls| {
      assert ls[k..] == [];
    } else if k > 0 {
      assert ls[k..] == ls[1..][k - 1..];
      JoinLinesSuffix(ls[1..], k - 1);
      var tail := JoinLines(ls[1..]);
      assert JoinLines(ls) == (ls[0] + "\n") + tail;
      var r := JoinLines(ls[k..]);
      assert JoinLines(ls)[|JoinLines(ls)| - |r|..] == tail[|tail| - |r|..];
    } else {
      assert ls[k..] == ls;
    }
  }

  /** The text after the first line: `Lines(s)[1..]` joined back. */
  lemma RestLines(s: Bytes)
    requires LineEnd(s, 0) < |s|
    ensures JoinLines(Lines(s)[1..]) == s[LineEnd(s, 0) + 1..]
    decreases |s|, 0
  {
    var e := LineEnd(s, 0);
    LinesTail(s, e);
    JoinLinesOfLines(s[e + 1..]);
  }

  /** The pieces after the first are the pieces of the text after the first "\n". */
  lemma LinesTail(s: Bytes, e: nat)
    requires e == LineEnd(s, 0) < |s|
    ensures Lines(s)[1..] == Lines(s[e + 1..])
  {
    assert Lines(s) == [s[..e]] + Lines(s[e + 1..]);
  }

  // ---------------------------------------------------------------------------
  // preg_replace('/\s+/', ' ', s)

  /** No whitespace except a single space, and never two spaces in a row. */
  predicate SingleSpaced(r: Bytes) {
    && (forall i :: 0 <= i < |r| && IsSpace(r[i]) ==> r[i] == ' ')
    && (forall i :: 0 <= i < |r| - 1 ==> !(r[i] == ' ' && r[i + 1] == ' '))
  }

  /** `preg_replace('/\s+/', ' ', s)`: every run of whitespace becomes one space. */
  function Collapse(s: Bytes): (r: Bytes)
    ensures |r| <= |s|
    ensures SingleSpaced(r)
    ensures s != [] && !IsSpace(s[0]) ==> r != [] && r[0] == s[0]
    ensures s != [] && IsSpace(s[0]) ==> r != [] && r[0] == ' '
    ensures s == [] <==> r == []
    decreases |s|
  {
    if s == [] then []
    else if IsSpace(s[0]) then
      var rest := s[SkipSpace(s, 0)..];
      var r := " " + Collapse(rest);
      assert forall i :: 1 <= i < |r| ==> r[i] == Collapse(rest)[i - 1];
      r
    else
      var r := [s[0]] + Collapse(s[1..]);
      assert forall i :: 1 <= i < |r| ==> r[i] == Collapse(s[1..])[i - 1];
      r
  }

  /** Collapsing text that is already single-spaced changes nothing. */
  lemma {:induction false} CollapseOfSingleSpaced(s: Bytes)
    requires SingleSpaced(s)
    ensures Collapse(s) == s
    decreases |s|
  {
    if s != [] {
      assert SingleSpaced(s[1..]);
      if IsSpace(s[0]) {
        assert SkipSpace(s, 0) == 1;
      }
      CollapseOfSingleSpaced(s[1..]);
    }
  }

  /** Whitespace-only text collapses to one space. */
  lemma CollapseAllSpace(s: Bytes)
    requires s != []
    requires forall i :: 0 <= i < |s| ==> IsSpace(s[i])
    ensures Collapse(s) == " "
  {
    var k := SkipSpace(s, 0);
    assert k == |s|;
    assert s[k..] == [];
  }

  /** A whitespace run that stops inside `a` stops at the same place in `a + c`, and so
      does one that reaches the end of `a` when `c` does not start with whitespace. */
  lemma {:induction false} SkipSpaceAppend(a: Bytes, c: Bytes, i: nat)
    requires i <= |a|
    requires SkipSpace(a, i) < |a| || c == [] || !IsSpace(c[0])
    ensures SkipSpace(a + c, i) == SkipSpace(a, i)
    decreases |a| - i
  {
    if i < |a| && IsSpace(a[i]) {
      assert (a + c)[i] == a[i];
      SkipSpaceAppend(a, c, i + 1);
    } else if i < |a| {
      assert (a + c)[i] == a[i];
    } else if c != [] {
      assert (a + c)[i] == c[0];
    } else {
      assert a + c == a;
    }
  }

  /** Collapsing distributes over a concatenation that does not join two whitespace runs. */
  lemma {:induction false} CollapseAppend(a: Bytes, c: Bytes)
    requires a == [] || c == [] || !IsSpace(a[|a| - 1]) || !IsSpace(c[0])
    ensures Collapse(a + c) == Collapse(a) + Collapse(c)
    decreases |a|
  {
    if a == [] {
      assert a + c == c;
    } else if !IsSpace(a[0]) {
      CollapseAppendHead(a, c);
      CollapseAppend(a[1..], c);
      AppendAssoc([a[0]], Collapse(a[1..]), Collapse(c));
    } else {
      var k := SkipSpace(a, 0);
      SkipSpaceAppend(a, c, 0);
      CollapseAppendRun(a, c, k);
      if k < |a| {
        CollapseAppend(a[k..], c);
        AppendAssoc(" ", Collapse(a[k..]), Collapse(c));
      } else {
        assert a[k..] == [];
      }
    }
  }

  /** One step of `Collapse(a + c)` at a first byte of `a` that is not whitespace. */
  lemma CollapseAppendHead(a: Bytes, c: Bytes)
    requires a != [] && !IsSpace(a[0])
    ensures Collapse(a + c) == [a[0]] + Collapse(a[1..] + c)
  {
    assert (a + c)[0] == a[0];
    assert (a + c)[1..] == a[1..] + c;
  }

  /** One step of `Collapse(a + c)` at a leading whitespace run of `a` that ends at `k`. */
  lemma CollapseAppendRun(a: Bytes, c: Bytes, k: nat)
    requires a != [] && IsSpace(a[0]) && k == SkipSpace(a, 0) && SkipSpace(a + c, 0) == k
    ensures Collapse(a + c) == " " + Collapse(a[k..] + c)
  {
    assert (a + c)[0] == a[0];
    assert (a + c)[k..] == a[k..] + c;
  }

  /** A run of whitespace between two stretches that do not touch it becomes one space. */
  lemma CollapseAroundRun(a: Bytes, w: Bytes, b: Bytes)
    requires a == [] || !IsSpace(a[|a| - 1])
    requires w != [] && forall i :: 0 <= i < |w| ==> IsSpace(w[i])
    requires b == [] || !IsSpace(b[0])
    ensures Collapse(a + w + b) == Collapse(a) + " " + Collapse(b)
  {
    CollapseAppend(w, b);
    CollapseAllSpace(w);
    assert w + b != [] && (w + b)[0] == w[0];
    CollapseAppend(a, w + b);
    AppendAssoc(a, w, b);
    AppendAssoc(Collapse(a), " ", Collapse(b));
  }

  /** A last byte that is not whitespace ends the collapsed text too. */
  lemma CollapseLast(s: Bytes)
    requires s != [] && !IsSpace(s[|s| - 1])
    ensures Collapse(s) != [] && Collapse(s)[|Collapse(s)| - 1] == s[|s| - 1]
  {
    var n := |s| - 1;
    assert s == s[..n] + [s[n]];
    CollapseAppend(s[..n], [s[n]]);
    assert [s[n]][1..] == [];
  }

  /** A byte that neither `\s` nor `trim` touches. */
  predicate Solid(c: char) {
    !IsSpace(c) && !IsTrimByte(c)
  }

  /** `s` is not empty and starts and ends on a solid byte. */
  predicate SolidEnds(s: Bytes) {
    s != [] && Solid(s[0]) && Solid(s[|s| - 1])
  }

  /** Collapsing keeps solid ends, so trimming afterwards changes nothing. */
  lemma CollapseSolidEnds(s: Bytes)
    requires SolidEnds(s)
    ensures SolidEnds(Collapse(s)) && Collapse(s)[0] == s[0]
    ensures Collapse(s)[|Collapse(s)| - 1] == s[|s| - 1]
    ensures Trim(Collapse(s)) == Collapse(s)
  {
    CollapseLast(s);
    TrimOfTrimmed(Collapse(s));
  }

  /** The bytes of `s` that are not `\s`, in order. */
  function NonSpace(s: Bytes): (r: Bytes)
    ensures forall i :: 0 <= i < |r| ==> !IsSpace(r[i])
  {
    if s == [] then [] else (if IsSpace(s[0]) then [] else [s[0]]) + NonSpace(s[1..])
  }

  lemma {:induction false} NonSpaceAppend(a: Bytes, b: Bytes)
    ensures NonSpace(a + b) == NonSpace(a) + NonSpace(b)
  {
    if a != [] {
      assert (a + b)[1..] == a[1..] + b;
      NonSpaceAppend(a[1..], b);
    } else {
      assert a + b == b;
    }
  }

  lemma {:induction false} NonSpaceAllSpace(s: Bytes)
    requires forall i :: 0 <= i < |s| ==> IsSpace(s[i])
    ensures NonSpace(s) == []
  {
    if s != [] {
      NonSpaceAllSpace(s[1..]);
    }
  }

  /** Collapsing whitespace keeps every other byte, in order. */
  lemma {:induction false} NonSpaceCollapse(s: Bytes)
    ensures NonSpace(Collapse(s)) == NonSpace(s)
    decreases |s|
  {
    if s != [] {
      if IsSpace(s[0]) {
        var k := SkipSpace(s, 0);
        NonSpaceCollapse(s[k..]);
        assert s == s[..k] + s[k..];
        NonSpaceAppend(s[..k], s[k..]);
        NonSpaceAllSpace(s[..k]);
        NonSpaceAppend(" ", Collapse(s[k..]));
      } else {
        NonSpaceCollapse(s[1..]);
        NonSpaceAppend([s[0]], Collapse(s[1..]));
      }
    }
  }

  /** Strip leading and trailing NUL bytes. */
  function DropNulStart(s: Bytes): Bytes
  {
    if |s| > 0 && s[0] == '\0' then DropNulStart(s[1..]) else s
  }

  function DropNulEnd(s: Bytes): Bytes
  {
    if |s| > 0 && s[|s| - 1] == '\0' then DropNulEnd(s[..|s| - 1]) else s
  }

  /** The only whitespace byte in `s` is the space. */
  predicate OnlyBlankSpace(s: Bytes) {
    forall i :: 0 <= i < |s| && IsSpace(s[i]) ==> s[i] == ' '
  }

  lemma {:induction false} NonSpaceTrimStart(s: Bytes)
    requires OnlyBlankSpace(s)
    ensures NonSpace(TrimStart(s)) == DropNulStart(NonSpace(s))
  {
    if |s| > 0 {
      assert OnlyBlankSpace(s[1..]);
      var p := NonSpace(s[1..]);
      if s[0] == ' ' {
        assert NonSpace(s) == p;
        NonSpaceTrimStart(s[1..]);
      } else if s[0] == '\0' {
        assert NonSpace(s) == ['\0'] + p;
        assert (['\0'] + p)[1..] == p;
        NonSpaceTrimStart(s[1..]);
      } else {
        assert !IsTrimByte(s[0]);
        assert NonSpace(s) == [s[0]] + p;
      }
    }
  }

  lemma {:induction false} NonSpaceTrimEnd(s: Bytes)
    requires OnlyBlankSpace(s)
    ensures NonSpace(TrimEnd(s)) == DropNulEnd(NonSpace(s))
  {
    if |s| > 0 {
      var n := |s| - 1;
      assert s == s[..n] + [s[n]];
      NonSpaceAppend(s[..n], [s[n]]);
      assert NonSpace([s[n]]) == if IsSpace(s[n]) then [] else [s[n]];
      if IsTrimByte(s[n]) {
        assert OnlyBlankSpace(s[..n]);
        NonSpaceTrimEnd(s[..n]);
        var p := NonSpace(s[..n]);
        if s[n] == '\0' {
          assert (p + [s[n]])[..|p|] == p;
        } else {
          assert p + [] == p;
        }
      }
    }
  }

  /** On text whose only whitespace is the space, `trim` removes from the non-space
      bytes exactly the NULs at either end. */
  lemma NonSpaceTrim(s: Bytes)
    requires OnlyBlankSpace(s)
    ensures NonSpace(Trim(s)) == DropNulEnd(DropNulStart(NonSpace(s)))
  {
    TrimIsEndOfStart(s);
    var t := TrimStart(s);
    assert OnlyBlankSpace(t);
    NonSpaceTrimStart(s);
    NonSpaceTrimEnd(t);
  }

  /** A trimmed, single-spaced text is left alone by collapse-then-trim. */
  lemma CollapseTrimFixpoint(s: Bytes)
    requires SingleSpaced(s) && Trimmed(s)
    ensures Trim(Collapse(s)) == s
  {
    CollapseOfSingleSpaced(s);
    TrimOfTrimmed(s);
  }

  /** Collapse-then-trim keeps single spacing. */
  lemma TrimKeepsSingleSpaced(s: Bytes)
    requires SingleSpaced(s)
    ensures SingleSpaced(Trim(s))
  {
    TrimIsInfix(s);
    var o := TrimOffset(s);
    var r := Trim(s);
    assert forall i :: 0 <= i < |r| ==> r[i] == s[o + i];
  }
}
