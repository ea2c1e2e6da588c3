/**
 * Scanners for the pattern shapes that several extractors share. Each follows
 * the order in which PCRE tries its choices: a greedy quantifier tries its
 * longest run first and gives bytes back one at a time, a lazy one starts
 * short and grows, an alternation tries its branches left to right, and a
 * search tries start positions from left to right.
 */
module Patterns {
  import opened PhpText

  /** '•' in UTF-8: the three bytes E2 80 A2. */
  const Bullet: Bytes := ['\U{E2}', '\U{80}', '\U{A2}']

  /** The byte class `[-–]` without the u flag: '-' and the three bytes of '–' (E2 80 93). */
  predicate IsDashByte(c: char) {
    c == '-' || c == '\U{E2}' || c == '\U{80}' || c == '\U{93}'
  }

  /** `\d{4}` at `p`. */
  predicate FourDigits(s: Bytes, p: nat) {
    p + 4 <= |s| && IsDigit(s[p]) && IsDigit(s[p + 1]) && IsDigit(s[p + 2]) && IsDigit(s[p + 3])
  }

  /** Where `\d{4}\s*[-–]\s*(?:present|\d{4})` (case-insensitive) ends when it matches at `p`.
      A shorter `\s*` leaves a whitespace byte where a dash byte, a digit or 'p' is needed,
      so only the longest runs can succeed. */
  function YearRangeEnd(s: Bytes, p: nat): (r: Option<nat>)
    requires p <= |s|
    ensures r.Some? ==> p + 9 <= r.value <= |s| && FourDigits(s, p)
    ensures r.Some? ==> IsWord(s[r.value - 1])
    ensures r.Some? ==> IsSpace(s[p + 4]) || IsDashByte(s[p + 4])
  {
    if !FourDigits(s, p) then None
    else
      var x := SkipSpace(s, p + 4);
      if x == |s| || !IsDashByte(s[x]) then None
      else
        var y := SkipSpace(s, x + 1);
        if MatchCI(s, y, "present") then
          assert Lower(s[y + 6]) == "present"[6] == 't';
          Some(y + 7)
        else if FourDigits(s, y) then Some(y + 4)
        else None
  }

  /** The leftmost year range at or after `i`, as (start, end). */
  function FirstYearRange(s: Bytes, i: nat): (r: Option<(nat, nat)>)
    requires i <= |s|
    ensures r.Some? ==> i <= r.value.0 <= |s| && YearRangeEnd(s, r.value.0) == Some(r.value.1)
    ensures r.Some? ==> forall q :: i <= q < r.value.0 ==> YearRangeEnd(s, q).None?
    ensures r.None? ==> forall q :: i <= q <= |s| ==> YearRangeEnd(s, q).None?
    decreases |s| - i
  {
    if YearRangeEnd(s, i).Some? then Some((i, YearRangeEnd(s, i).value))
    else if i == |s| then None
    else FirstYearRange(s, i + 1)
  }

  /** `.+` after a greedy `\s*` that began at `lo` and reached `x`: the `\s*` gives
      bytes back until `.+` can start on a byte that is not "\n". */
  function LineCharBackoff(s: Bytes, lo: nat, x: nat): (r: Option<nat>)
    requires lo <= x <= |s|
    ensures r.Some? ==> lo <= r.value <= x && r.value < |s| && s[r.value] != '\n'
    ensures r.Some? ==> forall y :: r.value < y <= x ==> y == |s| || s[y] == '\n'
    ensures r.None? ==> forall y :: lo <= y <= x ==> y == |s| || s[y] == '\n'
    decreases x - lo
  {
    if x < |s| && s[x] != '\n' then Some(x)
    else if x == lo then None
    else LineCharBackoff(s, lo, x - 1)
  }

  /** `\s*(.+?)` followed by `(?:\n|$)` or `(?=\n|$)` (no m flag), starting at `m`: the
      capture as (start, end). The greedy `\s*` gives bytes back until `.+?` can take a
      byte that is not "\n"; the lazy group then stops at the first "\n" or at the end. */
  function LineRest(s: Bytes, m: nat): (r: Option<(nat, nat)>)
    requires m <= |s|
    ensures r.Some? ==> m <= r.value.0 < r.value.1 <= |s|
    ensures r.Some? ==> forall k :: r.value.0 <= k < r.value.1 ==> s[k] != '\n'
    ensures r.Some? ==> r.value.1 == |s| || s[r.value.1] == '\n'
    ensures r.Some? ==> forall k :: m <= k < r.value.0 ==> IsSpace(s[k])
    ensures r.None? ==> forall k :: m <= k < |s| ==> s[k] == '\n'
  {
    var x := LineCharBackoff(s, m, SkipSpace(s, m));
    if x.Some? then Some((x.value, LineEnd(s, x.value + 1)))
    else None
  }

  // ---------------------------------------------------------------------------
  // Section patterns: HEAD[:]?(.+?)(?=STOP1|STOP2|…|$) with the i and s flags

  /** The lookahead of a section pattern holds at `e`: a stop word starts there, or
      `$` holds (the end of the text, or just before a final "\n"). */
  predicate SectionStop(s: Bytes, e: nat, stops: seq<Bytes>)
    requires e <= |s|
  {
    (exists k :: 0 <= k < |stops| && MatchCI(s, e, stops[k])) || e == |s| || (e + 1 == |s| && s[e] == '\n')
  }

  /** The first position at or after `i` where the lower-case literal `w` occurs. */
  function FirstMatchCI(s: Bytes, w: Bytes, i: nat): (r: Option<nat>)
    requires i <= |s|
    ensures r.Some? ==> i <= r.value && MatchCI(s, r.value, w)
    ensures r.Some? ==> forall q :: i <= q < r.value ==> !MatchCI(s, q, w)
    ensures r.None? ==> forall q :: i <= q <= |s| ==> !MatchCI(s, q, w)
    decreases |s| - i
  {
    if MatchCI(s, i, w) then Some(i)
    else if i == |s| then None
    else FirstMatchCI(s, w, i + 1)
  }

  /** The first position at or after `e` where the section lookahead holds. */
  function LazyStop(s: Bytes, e: nat, stops: seq<Bytes>): (r: nat)
    requires e <= |s|
    ensures e <= r <= |s| && SectionStop(s, r, stops)
    ensures forall j :: e <= j < r ==> !SectionStop(s, j, stops)
    decreases |s| - e
  {
    if SectionStop(s, e, stops) then e else LazyStop(s, e + 1, stops)
  }

  /** The capture group of a section pattern, as (start, end).

      The match starts at the first occurrence of the heading: a later occurrence
      lies closer to the end, so if the first has nothing after it neither has any
      other. `[:]?` takes the colon unless that leaves `(.+?)` nothing to consume;
      `(.+?)` consumes at least one byte and then stops at the first position where
      the lookahead holds. */
  function SectionCapture(s: Bytes, head: Bytes, stops: seq<Bytes>): (r: Option<(nat, nat)>)
    requires |head| > 0
    ensures r.Some? <==> (FirstMatchCI(s, head, 0).Some? && FirstMatchCI(s, head, 0).value + |head| < |s|)
    ensures r.Some? ==>
      var p := FirstMatchCI(s, head, 0).value;
      var c := r.value.0;
      var e := r.value.1;
      && (c == p + |head| || (c == p + |head| + 1 && s[p + |head|] == ':'))
      && c < e <= |s|
      && SectionStop(s, e, stops)
      && (forall j :: c < j < e ==> !SectionStop(s, j, stops))
  {
    match FirstMatchCI(s, head, 0)
    case None => None
    case Some(p) =>
      var b := p + |head|;
      if b >= |s| then None
      else
        var c := if s[b] == ':' && b + 1 < |s| then b + 1 else b;
        Some((c, LazyStop(s, c + 1, stops)))
  }

  // ---------------------------------------------------------------------------
  // Vocabulary searches: \b(?:W1|W2|…)\b with the i flag, found with preg_match_all

  /** Length of the first alternative, in order, that matches at `p` and ends on a word boundary. */
  function VocabAt(s: Bytes, p: nat, alts: seq<Bytes>, k: nat): (r: Option<nat>)
    requires p <= |s|
    requires k <= |alts|
    ensures r.Some? ==> p + r.value <= |s|
    decreases |alts| - k
  {
    if k == |alts| then None
    else if MatchCI(s, p, alts[k]) && IsBoundary(s, p + |alts[k]|) then Some(|alts[k]|)
    else VocabAt(s, p, alts, k + 1)
  }

  /** The text of a match, lower-cased, is one of the alternatives. */
  lemma {:induction false} VocabAtLower(s: Bytes, p: nat, alts: seq<Bytes>, k: nat)
    requires p <= |s| && k <= |alts| && VocabAt(s, p, alts, k).Some?
    ensures LowerStr(s[p..p + VocabAt(s, p, alts, k).value]) in alts
    decreases |alts| - k
  {
    if MatchCI(s, p, alts[k]) && IsBoundary(s, p + |alts[k]|) {
      MatchCILower(s, p, alts[k]);
    } else {
      VocabAtLower(s, p, alts, k + 1);
    }
  }

  /** All non-overlapping matches from position `i` on, in order. */
  function VocabHits(s: Bytes, alts: seq<Bytes>, i: nat): (r: seq<Bytes>)
    requires i <= |s|
    requires forall k :: 0 <= k < |alts| ==> |alts[k]| > 0
    ensures forall h :: h in r ==> LowerStr(h) in alts
    decreases |s| - i
  {
    if i == |s| then []
    else if IsBoundary(s, i) && VocabAt(s, i, alts, 0).Some? then
      var n := VocabAt(s, i, alts, 0).value;
      VocabAtLower(s, i, alts, 0);
      [s[i..i + n]] + VocabHits(s, alts, i + n)
    else VocabHits(s, alts, i + 1)
  }

  /** A match of the vocabulary pattern starts at `p`. */
  predicate HitAt(s: Bytes, alts: seq<Bytes>, p: nat)
    requires p <= |s|
  {
    p < |s| && IsBoundary(s, p) && VocabAt(s, p, alts, 0).Some?
  }

  /** One step of the search at `i`. */
  lemma VocabHitsStep(s: Bytes, alts: seq<Bytes>, i: nat)
    requires i < |s|
    requires forall k :: 0 <= k < |alts| ==> |alts[k]| > 0
    ensures HitAt(s, alts, i) ==>
      VocabHits(s, alts, i) == [s[i..i + VocabAt(s, i, alts, 0).value]] + VocabHits(s, alts, i + VocabAt(s, i, alts, 0).value)
    ensures !HitAt(s, alts, i) ==> VocabHits(s, alts, i) == VocabHits(s, alts, i + 1)
  {
  }

  /** Where the leftmost match from `i` on starts. */
  function FirstHit(s: Bytes, alts: seq<Bytes>, i: nat): (r: Option<nat>)
    requires i <= |s|
    ensures r.Some? ==> i <= r.value < |s| && HitAt(s, alts, r.value)
    ensures r.Some? ==> forall p :: i <= p < r.value ==> !HitAt(s, alts, p)
    ensures r.None? ==> forall p :: i <= p <= |s| ==> !HitAt(s, alts, p)
    decreases |s| - i
  {
    if i == |s| then None
    else if HitAt(s, alts, i) then Some(i)
    else FirstHit(s, alts, i + 1)
  }

  /** `preg_match_all` finds the leftmost match first and goes on right after it; with
      no match left it finds nothing. */
  lemma {:induction false} VocabHitsHead(s: Bytes, alts: seq<Bytes>, i: nat)
    requires i <= |s|
    requires forall k :: 0 <= k < |alts| ==> |alts[k]| > 0
    ensures FirstHit(s, alts, i).None? ==> VocabHits(s, alts, i) == []
    ensures FirstHit(s, alts, i).Some? ==>
      var q := FirstHit(s, alts, i).value;
      var n := VocabAt(s, q, alts, 0).value;
      q + n <= |s| && VocabHits(s, alts, i) == [s[q..q + n]] + VocabHits(s, alts, q + n)
    decreases |s| - i
  {
    if i < |s| {
      VocabHitsStep(s, alts, i);
      FirstHitStep(s, alts, i);
      if !HitAt(s, alts, i) {
        VocabHitsHead(s, alts, i + 1);
      }
    }
  }

  /** One step of `FirstHit` at `i`. */
  lemma FirstHitStep(s: Bytes, alts: seq<Bytes>, i: nat)
    requires i < |s|
    ensures HitAt(s, alts, i) ==> FirstHit(s, alts, i) == Some(i)
    ensures !HitAt(s, alts, i) ==> FirstHit(s, alts, i) == FirstHit(s, alts, i + 1)
  {
  }

  /** Every match that no earlier match overlaps is found: a later match is never lost
      by the non-overlapping search. */
  lemma {:induction false} VocabHitsComplete(s: Bytes, alts: seq<Bytes>, i: nat, q: nat)
    requires i <= q <= |s| && HitAt(s, alts, q)
    requires forall k :: 0 <= k < |alts| ==> |alts[k]| > 0
    requires forall p :: i <= p < q && HitAt(s, alts, p) ==> p + VocabAt(s, p, alts, 0).value <= q
    ensures q + VocabAt(s, q, alts, 0).value <= |s|
    ensures s[q..q + VocabAt(s, q, alts, 0).value] in VocabHits(s, alts, i)
    decreases q - i
  {
    VocabHitsStep(s, alts, i);
    if i < q {
      if HitAt(s, alts, i) {
        var n := VocabAt(s, i, alts, 0).value;
        VocabHitsComplete(s, alts, i + n, q);
      } else {
        VocabHitsComplete(s, alts, i + 1, q);
      }
    }
  }

  /** No match is found from `i` on exactly when no position from `i` on starts one. */
  lemma {:induction false} VocabHitsNone(s: Bytes, alts: seq<Bytes>, i: nat)
    requires i <= |s|
    requires forall k :: 0 <= k < |alts| ==> |alts[k]| > 0
    ensures VocabHits(s, alts, i) == [] <==>
      forall q :: i <= q < |s| ==> !(IsBoundary(s, q) && VocabAt(s, q, alts, 0).Some?)
    decreases |s| - i
  {
    if i < |s| {
      VocabHitsNone(s, alts, i + 1);
    }
  }

  /** `array_map('strtolower', …)`. */
  function LowerAll(xs: seq<Bytes>): (r: seq<Bytes>)
    ensures |r| == |xs| && forall i :: 0 <= i < |xs| ==> r[i] == LowerStr(xs[i])
  {
    seq(|xs|, i requires 0 <= i < |xs| => LowerStr(xs[i]))
  }

  // ---------------------------------------------------------------------------
  // array_unique

  /** The index of the first occurrence of `x` in `xs`, or `|xs|` when there is none. */
  function IndexOf(xs: seq<Bytes>, x: Bytes): (r: nat)
    ensures r <= |xs| && (r < |xs| <==> x in xs)
    ensures r < |xs| ==> xs[r] == x && forall k :: 0 <= k < r ==> xs[k] != x
  {
    if xs == [] then 0 else if xs[0] == x then 0 else 1 + IndexOf(xs[1..], x)
  }

  /** The strings of `r` appear in the order of their first occurrences in `xs`. */
  predicate InFirstOccurrenceOrder(r: seq<Bytes>, xs: seq<Bytes>) {
    forall i, j :: 0 <= i < j < |r| ==> IndexOf(xs, r[i]) < IndexOf(xs, r[j])
  }

  /** `array_unique` on the values: the first occurrence of each string, in order,
      skipping those already in `seen`. */
  function UniqueFrom(xs: seq<Bytes>, seen: set<Bytes>): (r: seq<Bytes>)
    ensures forall i, j :: 0 <= i < j < |r| ==> r[i] != r[j]
    ensures forall x :: x in r ==> x in xs && x !in seen
    ensures forall x :: x in xs && x !in seen ==> x in r
    ensures InFirstOccurrenceOrder(r, xs)
    ensures |r| <= |xs|
  {
    if xs == [] then []
    else
      var rest := UniqueFrom(xs[1..], if xs[0] in seen then seen else seen + {xs[0]});
      assert forall x :: x in rest ==> IndexOf(xs, x) == 1 + IndexOf(xs[1..], x);
      if xs[0] in seen then rest else [xs[0]] + rest
  }

  /** `array_unique` on the values: no string twice, the same strings as `xs`, in the
      order of their first occurrences. These three facts leave one possible result. */
  function Unique(xs: seq<Bytes>): (r: seq<Bytes>)
    ensures forall i, j :: 0 <= i < j < |r| ==> r[i] != r[j]
    ensures forall x :: x in r <==> x in xs
    ensures InFirstOccurrenceOrder(r, xs)
  {
    UniqueFrom(xs, {})
  }

  predicate NoRepeats(r: seq<Bytes>) {
    forall i, j :: 0 <= i < j < |r| ==> r[i] != r[j]
  }

  /** Two non-empty lists with the same strings, both in first-occurrence order, start
      with the same string. */
  lemma SameHead(r1: seq<Bytes>, r2: seq<Bytes>, xs: seq<Bytes>)
    requires r1 != [] && r2 != []
    requires forall x :: x in r1 <==> x in r2
    requires InFirstOccurrenceOrder(r1, xs) && InFirstOccurrenceOrder(r2, xs)
    ensures r1[0] == r2[0]
  {
    assert r1[0] in r2 && r2[0] in r1;
    var k :| 0 <= k < |r1| && r1[k] == r2[0];
    var m :| 0 <= m < |r2| && r2[m] == r1[0];
    if k != 0 && m != 0 {
      assert false;
    }
  }

  /** Dropping the shared head keeps both lists' properties. */
  lemma SameTails(r1: seq<Bytes>, r2: seq<Bytes>, xs: seq<Bytes>)
    requires r1 != [] && r2 != [] && r1[0] == r2[0]
    requires NoRepeats(r1) && NoRepeats(r2)
    requires forall x :: x in r1 <==> x in r2
    requires InFirstOccurrenceOrder(r1, xs) && InFirstOccurrenceOrder(r2, xs)
    ensures NoRepeats(r1[1..]) && NoRepeats(r2[1..])
    ensures forall x :: x in r1[1..] <==> x in r2[1..]
    ensures InFirstOccurrenceOrder(r1[1..], xs) && InFirstOccurrenceOrder(r2[1..], xs)
  {
    forall x
      ensures x in r1[1..] <==> x in r2[1..]
    {
      if x in r1[1..] {
        var i :| 1 <= i < |r1| && r1[i] == x;
        assert x in r2 && x != r2[0];
      }
      if x in r2[1..] {
        var i :| 1 <= i < |r2| && r2[i] == x;
        assert x in r1 && x != r1[0];
      }
    }
  }

  /** Two lists without repeats that hold the same strings, both in the order of first
      occurrence in `xs`, are equal. */
  lemma {:induction false} FirstOccurrenceListsEqual(r1: seq<Bytes>, r2: seq<Bytes>, xs: seq<Bytes>)
    requires NoRepeats(r1) && NoRepeats(r2)
    requires forall x :: x in r1 <==> x in r2
    requires InFirstOccurrenceOrder(r1, xs) && InFirstOccurrenceOrder(r2, xs)
    ensures r1 == r2
    decreases |r1|
  {
    if r1 != [] {
      assert r1[0] in r2;
    }
    if r2 != [] {
      assert r2[0] in r1;
    }
    if r1 != [] && r2 != [] {
      SameHead(r1, r2, xs);
      SameTails(r1, r2, xs);
      FirstOccurrenceListsEqual(r1[1..], r2[1..], xs);
      assert r1 == [r1[0]] + r1[1..];
      assert r2 == [r2[0]] + r2[1..];
    }
  }

  /** Any list without repeats that holds the strings of `xs` in the order of their first
      occurrences is what `array_unique` returns. */
  lemma UniqueIsDetermined(xs: seq<Bytes>, r: seq<Bytes>)
    requires NoRepeats(r)
    requires forall x :: x in r <==> x in xs
    requires InFirstOccurrenceOrder(r, xs)
    ensures r == Unique(xs)
  {
    FirstOccurrenceListsEqual(r, Unique(xs), xs);
  }

  /** `implode(', ', xs)`. */
  function JoinComma(xs: seq<Bytes>): (r: Bytes)
    ensures xs != [] && xs[0] != [] ==> r != [] && r[0] == xs[0][0]
  {
    if |xs| == 0 then "" else if |xs| == 1 then xs[0] else xs[0] + ", " + JoinComma(xs[1..])
  }

  // ---------------------------------------------------------------------------
  // foreach loops that append what each item yields

  /** What `f` yields for each item, concatenated in order (defined from the last item,
      as a loop appends). */
  function Gather<U, T>(f: U -> seq<T>, items: seq<U>): seq<T>
  {
    if items == [] then [] else Gather(f, items[..|items| - 1]) + f(items[|items| - 1])
  }

  /** A `foreach` over `items` that appends what `f` yields for each to `acc`. */
  method AppendEach<U, T>(acc: seq<T>, items: seq<U>, f: U -> seq<T>) returns (out: seq<T>)
    ensures out == acc + Gather(f, items)
  {
    out := acc;
    var i := 0;
    while i < |items|
      invariant 0 <= i <= |items|
      invariant out == acc + Gather(f, items[..i])
    {
      assert items[..i + 1][..i] == items[..i];
      out := out + f(items[i]);
      i := i + 1;
    }
    assert items[..|items|] == items;
  }

  /** The items `keep` accepts, in order. */
  function Filter<U>(keep: U -> bool, items: seq<U>): (r: seq<U>)
    ensures |r| <= |items|
    ensures forall x :: x in r ==> x in items && keep(x)
  {
    if items == [] then []
    else
      var last := items[|items| - 1];
      Filter(keep, items[..|items| - 1]) + (if keep(last) then [last] else [])
  }

  /** `make` applied to each item, in order. */
  function Map<U, T>(make: U -> T, items: seq<U>): (r: seq<T>)
    ensures |r| == |items| && forall k :: 0 <= k < |items| ==> r[k] == make(items[k])
  {
    seq(|items|, k requires 0 <= k < |items| => make(items[k]))
  }

  /** A loop that appends one record for each item it keeps and nothing for the others
      yields the records of the kept items, in order. */
  lemma {:induction false} GatherOnePerItem<U, T>(f: U -> seq<T>, keep: U -> bool, make: U -> T, items: seq<U>)
    requires forall x :: f(x) == (if keep(x) then [make(x)] else [])
    ensures Gather(f, items) == Map(make, Filter(keep, items))
    decreases |items|
  {
    if items != [] {
      var n := |items| - 1;
      GatherOnePerItem(f, keep, make, items[..n]);
    }
  }

  /** Everything gathered comes from one of the items. */
  lemma {:induction false} GatherMember<U, T>(f: U -> seq<T>, items: seq<U>, x: T)
    requires x in Gather(f, items)
    ensures exists j :: 0 <= j < |items| && x in f(items[j])
    decreases |items|
  {
    var n := |items| - 1;
    if x !in f(items[n]) {
      GatherMember(f, items[..n], x);
      var j :| 0 <= j < n && x in f(items[..n][j]);
      assert items[..n][j] == items[j];
    }
  }

  /** `xs` is `ys` with some elements left out. */
  predicate IsSubsequence<T(==)>(xs: seq<T>, ys: seq<T>)
    decreases |ys|
  {
    if xs == [] then true
    else if ys == [] then false
    else (xs[0] == ys[0] && IsSubsequence(xs[1..], ys[1..])) || IsSubsequence(xs, ys[1..])
  }

  /** The concatenation of pieces. */
  function Concat(xs: seq<Bytes>): Bytes
  {
    if xs == [] then "" else xs[0] + Concat(xs[1..])
  }

  lemma ConcatOne(x: Bytes)
    ensures Concat([x]) == x
  {
    assert [x][1..] == [];
  }

  lemma ConcatCons(x: Bytes, rest: seq<Bytes>)
    ensures Concat([x] + rest) == x + Concat(rest)
  {
    assert ([x] + rest)[1..] == rest;
  }

  /** A duration field: the first year range, trimmed, or "" when there is none
      (`extractDuration` of both the experience and the project parser). */
  function YearRangeText(s: Bytes): (r: Bytes)
    ensures r == "" <==> FirstYearRange(s, 0).None?
    ensures r != "" ==>
      r == s[FirstYearRange(s, 0).value.0..FirstYearRange(s, 0).value.1] && FourDigits(r, 0)
  {
    match FirstYearRange(s, 0)
    case None => ""
    case Some(m) =>
      YearRangeTrimmed(s, m.0, m.1);
      Trim(s[m.0..m.1])
  }

  /** A year range starts and ends with a digit, so trimming leaves it as it is. */
  lemma YearRangeTrimmed(s: Bytes, p: nat, e: nat)
    requires FirstYearRange(s, 0) == Some((p, e))
    ensures Trim(s[p..e]) == s[p..e]
  {
    assert Trimmed(s[p..e]) by {
      assert s[p..e][0] == s[p];
      assert s[p..e][e - p - 1] == s[e - 1];
    }
    TrimOfTrimmed(s[p..e]);
  }
}
