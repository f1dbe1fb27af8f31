/**
 * The pattern `([a-zA-Z0-9_-]+\.)+` followed by the target domain taken
 * literally, and the scan `FindAllString(content, -1)` performs with it:
 * leftmost, non-overlapping matches, each one as long as the backtracking
 * order of the greedy `+` makes it.
 *
 * No regular-expression engine is modelled. The pattern is read in two ways:
 * declaratively (`IsSubdomainOf`, `IsMatchSpan`: which strings the pattern
 * describes) and operationally (`GroupEnd`, `GreedyTail`, `MatchAt`, `Scan`:
 * which match the engine picks). `MatchAtIsLongestMatch` ties the two.
 */
module SubdomainPattern {
  import opened Common

  /** The character class `[a-zA-Z0-9_-]`. */
  predicate IsLabelChar(c: char) {
    ('a' <= c <= 'z') || ('A' <= c <= 'Z') || ('0' <= c <= '9') || c == '_' || c == '-'
  }

  /** One group `[a-zA-Z0-9_-]+\.`: a non-empty run of label characters and its dot. */
  predicate IsLabelGroup(g: string) {
    && |g| >= 2
    && g[|g| - 1] == '.'
    && (forall k :: 0 <= k < |g| - 1 ==> IsLabelChar(g[k]))
  }

  /**
   * The strings `([a-zA-Z0-9_-]+\.)+` describes: label characters and dots,
   * starting with a label character, ending with a dot, and every dot but the
   * last followed by a label character.
   */
  predicate IsDottedLabels(t: string) {
    && |t| >= 2
    && IsLabelChar(t[0])
    && t[|t| - 1] == '.'
    && (forall k :: 0 <= k < |t| ==> IsLabelChar(t[k]) || t[k] == '.')
    && (forall k :: 0 <= k < |t| - 1 && t[k] == '.' ==> IsLabelChar(t[k + 1]))
  }

  /** `t` is a whole match for `domain`: one or more label groups, then `domain` literally. */
  predicate IsSubdomainOf(t: string, domain: string) {
    && |t| >= |domain|
    && IsDottedLabels(t[..|t| - |domain|])
    && t[|t| - |domain|..] == domain
  }

  /** `t` occurs in `s` at position `p`. */
  predicate OccursAt(s: string, p: nat, t: string) {
    p + |t| <= |s| && s[p..p + |t|] == t
  }

  /** `s[p..j]` is a match for `domain`, in the declarative reading of the pattern. */
  predicate IsMatchSpan(s: string, p: nat, j: nat, domain: string) {
    p <= j <= |s| && IsSubdomainOf(s[p..j], domain)
  }

  /** `t` occurs contiguously in `s`. */
  ghost predicate IsSubstring(t: string, s: string) {
    exists i: nat :: OccursAt(s, i, t)
  }

  // ---------------------------------------------------------------------------
  // The engine's choices
  // ---------------------------------------------------------------------------

  /** End of the maximal run of label characters that starts at `p`. */
  function RunEnd(s: string, p: nat): (q: nat)
    requires p <= |s|
    ensures p <= q <= |s|
    ensures forall k :: p <= k < q ==> IsLabelChar(s[k])
    ensures q == |s| || !IsLabelChar(s[q])
    decreases |s| - p
  {
    if p < |s| && IsLabelChar(s[p]) then RunEnd(s, p + 1) else p
  }

  /**
   * End of the group `[a-zA-Z0-9_-]+\.` that starts at `p`, if any. The run of
   * label characters cannot stop before a label character, so at most one
   * group starts at any position (`GroupEndUnique`).
   */
  function GroupEnd(s: string, p: nat): (r: Option<nat>)
    requires p <= |s|
    ensures r.Some? ==> p + 2 <= r.value <= |s| && IsLabelGroup(s[p..r.value])
  {
    var q := RunEnd(s, p);
    if p < q < |s| && s[q] == '.' then Some(q + 1) else None
  }

  /**
   * What `(group)*` followed by the domain matches at `p` when the greedy
   * `*` prefers one more group to stopping: the end of the first success in
   * that order, or `None`.
   */
  function GreedyTail(s: string, p: nat, domain: string): (r: Option<nat>)
    requires p <= |s|
    ensures r.Some? ==> p + |domain| <= r.value <= |s|
    decreases |s| - p
  {
    var g := GroupEnd(s, p);
    var more := if g.Some? then GreedyTail(s, g.value, domain) else None;
    if more.Some? then more
    else if OccursAt(s, p, domain) then Some(p + |domain|)
    else None
  }

  /** The end of the match the engine reports when a match starts at `p`, if one does. */
  function MatchAt(s: string, p: nat, domain: string): (r: Option<nat>)
    requires p <= |s|
    ensures r.Some? ==> p + 2 + |domain| <= r.value <= |s|
  {
    var g := GroupEnd(s, p);
    if g.Some? then GreedyTail(s, g.value, domain) else None
  }

  // ---------------------------------------------------------------------------
  // Groups chained from a start position
  // ---------------------------------------------------------------------------

  /** `q` is the end of one or more consecutive groups starting at `p`. */
  ghost predicate Chain(s: string, p: nat, q: nat)
    requires p <= |s|
    decreases |s| - p
  {
    var g := GroupEnd(s, p);
    g.Some? && (g.value == q || Chain(s, g.value, q))
  }

  /** A group that fits in `s` at `p` is the one `GroupEnd` finds. */
  lemma GroupEndUnique(s: string, p: nat, j: nat)
    requires p <= j <= |s| && IsLabelGroup(s[p..j])
    ensures GroupEnd(s, p) == Some(j)
  {
    forall k | p <= k < j - 1 ensures IsLabelChar(s[k]) {
      assert s[k] == s[p..j][k - p];
    }
    assert s[j - 1] == s[p..j][j - 1 - p];
    assert !IsLabelChar(s[j - 1]);
  }

  lemma DottedPrepend(g: string, t: string)
    requires IsLabelGroup(g) && IsDottedLabels(t)
    ensures IsDottedLabels(g + t)
  {
    var u := g + t;
    forall k | 0 <= k < |u| ensures IsLabelChar(u[k]) || u[k] == '.' {
      if k >= |g| {
        assert u[k] == t[k - |g|];
      }
    }
    forall k | 0 <= k < |u| - 1 && u[k] == '.' ensures IsLabelChar(u[k + 1]) {
      if k == |g| - 1 {
        assert u[k + 1] == t[0];
      } else if k >= |g| {
        assert u[k] == t[k - |g|] && u[k + 1] == t[k + 1 - |g|];
      }
    }
  }

  /** Chained groups spell a string of the shape `([a-zA-Z0-9_-]+\.)+`. */
  lemma {:induction false} ChainIsDotted(s: string, p: nat, q: nat)
    requires p <= |s| && Chain(s, p, q)
    ensures p + 2 <= q <= |s| && IsDottedLabels(s[p..q])
    decreases |s| - p
  {
    var e := GroupEnd(s, p).value;
    if e != q {
      ChainIsDotted(s, e, q);
      DottedPrepend(s[p..e], s[e..q]);
      assert s[p..q] == s[p..e] + s[e..q];
    }
  }

  /** Conversely, every string of that shape is cut into groups by `GroupEnd`. */
  lemma {:induction false} DottedIsChain(s: string, p: nat, q: nat)
    requires p <= q <= |s| && IsDottedLabels(s[p..q])
    ensures Chain(s, p, q)
    decreases q - p
  {
    var t := s[p..q];
    var r := RunEnd(s, p);
    assert s[p] == t[0];
    assert s[q - 1] == t[|t| - 1];
    assert !IsLabelChar(s[q - 1]);
    assert s[r] == t[r - p];
    assert GroupEnd(s, p) == Some(r + 1);
    if r + 1 < q {
      var t2 := s[r + 1..q];
      forall k | 0 <= k < |t2| ensures t2[k] == t[k + r + 1 - p] { }
      assert IsDottedLabels(t2);
      DottedIsChain(s, r + 1, q);
    }
  }

  /**
   * `GreedyTail` picks, among the positions `p` and the ends of groups chained
   * from `p` where the domain follows, the farthest one.
   */
  lemma {:induction false} GreedyTailPicksFarthest(s: string, p: nat, domain: string)
    requires p <= |s|
    ensures var r := GreedyTail(s, p, domain);
      r.Some? ==> (r.value - |domain| == p || Chain(s, p, r.value - |domain|)) && OccursAt(s, r.value - |domain|, domain)
    ensures var r := GreedyTail(s, p, domain);
      forall q: nat :: (q == p || Chain(s, p, q)) && OccursAt(s, q, domain) ==> r.Some? && q + |domain| <= r.value
    decreases |s| - p
  {
    var g := GroupEnd(s, p);
    if g.Some? {
      var e := g.value;
      GreedyTailPicksFarthest(s, e, domain);
      forall q: nat | Chain(s, e, q) ensures e < q {
        ChainIsDotted(s, e, q);
      }
    }
  }

  /** A declarative match starting at `p` ends where the domain follows a chain of groups. */
  lemma MatchSpanIsChain(s: string, p: nat, j: nat, domain: string)
    requires IsMatchSpan(s, p, j, domain)
    ensures p <= j - |domain| && Chain(s, p, j - |domain|) && OccursAt(s, j - |domain|, domain)
  {
    var t := s[p..j];
    assert t[..|t| - |domain|] == s[p..j - |domain|];
    assert t[|t| - |domain|..] == s[j - |domain|..j];
    DottedIsChain(s, p, j - |domain|);
  }

  /** The domain following a chain of groups makes a declarative match. */
  lemma ChainIsMatchSpan(s: string, p: nat, q: nat, domain: string)
    requires p <= |s| && Chain(s, p, q) && OccursAt(s, q, domain)
    ensures IsMatchSpan(s, p, q + |domain|, domain)
  {
    ChainIsDotted(s, p, q);
    var t := s[p..q + |domain|];
    assert t[..|t| - |domain|] == s[p..q];
    assert t[|t| - |domain|..] == s[q..q + |domain|];
  }

  /** The match the engine reports at `p` is a match in the declarative sense. */
  lemma MatchAtIsMatchSpan(s: string, p: nat, domain: string)
    requires p <= |s|
    ensures MatchAt(s, p, domain).Some? ==> IsMatchSpan(s, p, MatchAt(s, p, domain).value, domain)
  {
    var g := GroupEnd(s, p);
    if g.Some? {
      var e := g.value;
      GreedyTailPicksFarthest(s, e, domain);
      var r := GreedyTail(s, e, domain);
      if r.Some? {
        var q := r.value - |domain|;
        assert Chain(s, p, q);
        ChainIsMatchSpan(s, p, q, domain);
      }
    }
  }

  /**
   * The engine reports a match at `p` exactly when some match starts at `p`,
   * and no match starting at `p` is longer than the one it reports:
   * leftmost-first priority and longest match agree here.
   */
  lemma MatchAtIsLongestMatch(s: string, p: nat, domain: string)
    requires p <= |s|
    ensures MatchAt(s, p, domain).Some? ==> IsMatchSpan(s, p, MatchAt(s, p, domain).value, domain)
    ensures forall j: nat :: IsMatchSpan(s, p, j, domain) ==>
      MatchAt(s, p, domain).Some? && j <= MatchAt(s, p, domain).value
  {
    MatchAtIsMatchSpan(s, p, domain);
    var g := GroupEnd(s, p);
    if g.Some? {
      GreedyTailPicksFarthest(s, g.value, domain);
    }
    forall j: nat | IsMatchSpan(s, p, j, domain)
      ensures MatchAt(s, p, domain).Some? && j <= MatchAt(s, p, domain).value
    {
      MatchSpanIsChain(s, p, j, domain);
    }
  }

  // ---------------------------------------------------------------------------
  // FindAllString
  // ---------------------------------------------------------------------------

  /** The bounds `content[start..end]` of one reported match. */
  datatype Span = Span(start: nat, end: nat)

  /** Where the search that found span `k` began: `from`, or the end of span `k - 1`. */
  function GapStart(spans: seq<Span>, from: nat, k: nat): nat
    requires k <= |spans|
  {
    if k == 0 then from else spans[k - 1].end
  }

  /**
   * The matches `FindAllString` reports from position `from` on: the search
   * tries each start position in turn, reports the engine's match at the
   * first one that has a match, and resumes at its end.
   */
  function Scan(s: string, domain: string, from: nat): (spans: seq<Span>)
    requires from <= |s|
    ensures forall k :: 0 <= k < |spans| ==> from <= spans[k].start < spans[k].end <= |s|
    decreases |s| - from
  {
    if from == |s| then []
    else
      var m := MatchAt(s, from, domain);
      if m.Some? then [Span(from, m.value)] + Scan(s, domain, m.value)
      else Scan(s, domain, from + 1)
  }

  lemma ScanUnfold(s: string, domain: string, from: nat)
    requires from < |s| && MatchAt(s, from, domain).Some?
    ensures var e := MatchAt(s, from, domain).value;
      var spans := Scan(s, domain, from);
      var rest := Scan(s, domain, e);
      && |spans| == |rest| + 1
      && spans[0] == Span(from, e)
      && (forall k :: 1 <= k < |spans| ==> spans[k] == rest[k - 1])
      && (forall k :: 1 <= k <= |spans| ==> GapStart(spans, from, k) == GapStart(rest, e, k - 1))
  {
    var e := MatchAt(s, from, domain).value;
    var spans := Scan(s, domain, from);
    var rest := Scan(s, domain, e);
    assert spans == [Span(from, e)] + rest;
    forall k | 1 <= k <= |spans| ensures GapStart(spans, from, k) == GapStart(rest, e, k - 1) {
      if k > 1 {
        assert spans[k - 1] == rest[k - 2];
      }
    }
  }

  /** A position where no match starts is skipped. */
  lemma ScanStepNone(s: string, domain: string, p: nat)
    requires p < |s| && MatchAt(s, p, domain).None?
    ensures Scan(s, domain, p) == Scan(s, domain, p + 1)
  {
  }

  /** A match found at a position is reported, and the scan resumes at its end. */
  lemma ScanStepSome(s: string, domain: string, p: nat, e: nat)
    requires p < |s| && MatchAt(s, p, domain) == Some(e)
    ensures Scan(s, domain, p) == [Span(p, e)] + Scan(s, domain, e)
  {
  }

  /** Each reported span starts at or after the end of the previous one. */
  lemma {:induction false} ScanStartsAfterGap(s: string, domain: string, from: nat)
    requires from <= |s|
    ensures forall k :: 0 <= k < |Scan(s, domain, from)| ==>
      GapStart(Scan(s, domain, from), from, k) <= Scan(s, domain, from)[k].start
    decreases |s| - from
  {
    if from < |s| {
      var spans := Scan(s, domain, from);
      if MatchAt(s, from, domain).Some? {
        var e := MatchAt(s, from, domain).value;
        var rest := Scan(s, domain, e);
        ScanStartsAfterGap(s, domain, e);
        ScanUnfold(s, domain, from);
        forall k | 0 <= k < |spans| ensures GapStart(spans, from, k) <= spans[k].start {
          if k > 0 {
            assert spans[k] == rest[k - 1];
            assert GapStart(spans, from, k) == GapStart(rest, e, k - 1);
            assert GapStart(rest, e, k - 1) <= rest[k - 1].start;
          }
        }
      } else {
        var rest := Scan(s, domain, from + 1);
        ScanStartsAfterGap(s, domain, from + 1);
        assert spans == rest;
        forall k | 0 <= k < |spans| ensures GapStart(spans, from, k) <= spans[k].start {
          assert GapStart(rest, from + 1, k) <= rest[k].start;
        }
      }
    }
  }

  /** Each reported span is the engine's match at its start. */
  lemma {:induction false} ScanReportsEngineMatches(s: string, domain: string, from: nat)
    requires from <= |s|
    ensures forall k :: 0 <= k < |Scan(s, domain, from)| ==>
      MatchAt(s, Scan(s, domain, from)[k].start, domain) == Some(Scan(s, domain, from)[k].end)
    decreases |s| - from
  {
    if from < |s| {
      var spans := Scan(s, domain, from);
      if MatchAt(s, from, domain).Some? {
        var e := MatchAt(s, from, domain).value;
        var rest := Scan(s, domain, e);
        ScanReportsEngineMatches(s, domain, e);
        assert spans == [Span(from, e)] + rest;
        forall k | 0 <= k < |spans| ensures MatchAt(s, spans[k].start, domain) == Some(spans[k].end) {
          if k > 0 {
            assert spans[k] == rest[k - 1];
            assert MatchAt(s, rest[k - 1].start, domain) == Some(rest[k - 1].end);
          }
        }
      } else {
        var rest := Scan(s, domain, from + 1);
        ScanReportsEngineMatches(s, domain, from + 1);
        assert spans == rest;
        forall k | 0 <= k < |spans| ensures MatchAt(s, spans[k].start, domain) == Some(spans[k].end) {
          assert MatchAt(s, rest[k].start, domain) == Some(rest[k].end);
        }
      }
    }
  }

  /** No match starts between the end of one reported match and the start of the next. */
  lemma {:induction false} ScanSkipsNoMatch(s: string, domain: string, from: nat)
    requires from <= |s|
    ensures forall k, p: nat ::
      (0 <= k < |Scan(s, domain, from)| && GapStart(Scan(s, domain, from), from, k) <= p < Scan(s, domain, from)[k].start)
      ==> MatchAt(s, p, domain).None?
  {
    forall k, p: nat | 0 <= k < |Scan(s, domain, from)| && GapStart(Scan(s, domain, from), from, k) <= p < Scan(s, domain, from)[k].start
      ensures MatchAt(s, p, domain).None?
    {
      ScanSkipsNoMatchAt(s, domain, from, k, p);
    }
  }

  /** One position in the gap before span `k`, shown to start no match. */
  lemma {:induction false} ScanSkipsNoMatchAt(s: string, domain: string, from: nat, k: nat, p: nat)
    requires from <= |s| && k < |Scan(s, domain, from)|
    requires GapStart(Scan(s, domain, from), from, k) <= p < Scan(s, domain, from)[k].start
    ensures MatchAt(s, p, domain).None?
    decreases |s| - from, 1
  {
    if from < |s| {
      if MatchAt(s, from, domain).Some? {
        ScanSkipsNoMatchAfterMatch(s, domain, from, k, p);
      } else {
        ScanSkipsNoMatchAfterGap(s, domain, from, k, p);
      }
    }
  }

  /** The case of `ScanSkipsNoMatchAt` where a match starts at `from`. */
  lemma {:induction false} ScanSkipsNoMatchAfterMatch(s: string, domain: string, from: nat, k: nat, p: nat)
    requires from < |s| && MatchAt(s, from, domain).Some? && k < |Scan(s, domain, from)|
    requires GapStart(Scan(s, domain, from), from, k) <= p < Scan(s, domain, from)[k].start
    ensures MatchAt(s, p, domain).None?
    decreases |s| - from, 0
  {
    var e := MatchAt(s, from, domain).value;
    if k == 0 {
      ScanFirst(s, domain, from, e);
    } else {
      ScanShift(s, domain, from, e, k);
      ScanSkipsNoMatchAt(s, domain, e, k - 1, p);
    }
  }

  /** The case of `ScanSkipsNoMatchAt` where no match starts at `from`. */
  lemma {:induction false} ScanSkipsNoMatchAfterGap(s: string, domain: string, from: nat, k: nat, p: nat)
    requires from < |s| && MatchAt(s, from, domain).None? && k < |Scan(s, domain, from)|
    requires GapStart(Scan(s, domain, from), from, k) <= p < Scan(s, domain, from)[k].start
    ensures MatchAt(s, p, domain).None?
    decreases |s| - from, 0
  {
    ScanStepNone(s, domain, from);
    if p > from {
      ScanSkipsNoMatchAt(s, domain, from + 1, k, p);
    }
  }

  /** After a match at `from`, the first span reported is that match. */
  lemma ScanFirst(s: string, domain: string, from: nat, e: nat)
    requires from < |s| && MatchAt(s, from, domain) == Some(e)
    ensures |Scan(s, domain, from)| > 0 && Scan(s, domain, from)[0] == Span(from, e)
  {
    ScanStepSome(s, domain, from, e);
  }

  /** After a match at `from`, span `k` and the gap before it are span `k - 1` and its gap in the scan from the match's end. */
  lemma ScanShift(s: string, domain: string, from: nat, e: nat, k: nat)
    requires from < |s| && MatchAt(s, from, domain) == Some(e)
    requires 1 <= k < |Scan(s, domain, from)|
    ensures GapStart(Scan(s, domain, from), from, k) == GapStart(Scan(s, domain, e), e, k - 1)
    ensures Scan(s, domain, from)[k] == Scan(s, domain, e)[k - 1]
  {
    ScanStepSome(s, domain, from, e);
    GapStartConsAt(Span(from, e), Scan(s, domain, e), from, k);
  }

  /** Putting a span in front of a list of spans shifts every later gap and span by one place. */
  lemma GapStartConsAt(x: Span, rest: seq<Span>, from: nat, k: nat)
    requires 1 <= k <= |rest|
    ensures GapStart([x] + rest, from, k) == GapStart(rest, x.end, k - 1)
    ensures ([x] + rest)[k] == rest[k - 1]
  {
    if k > 1 {
      assert ([x] + rest)[k - 1] == rest[k - 2];
    }
  }

  /** No match starts after the last reported one. */
  lemma {:induction false} ScanMissesNoTail(s: string, domain: string, from: nat)
    requires from <= |s|
    ensures forall p: nat :: GapStart(Scan(s, domain, from), from, |Scan(s, domain, from)|) <= p <= |s| ==>
      MatchAt(s, p, domain).None?
  {
    forall p: nat | GapStart(Scan(s, domain, from), from, |Scan(s, domain, from)|) <= p <= |s|
      ensures MatchAt(s, p, domain).None?
    {
      ScanMissesNoTailAt(s, domain, from, p);
    }
  }

  /** One position after the last reported span, shown to start no match. */
  lemma {:induction false} ScanMissesNoTailAt(s: string, domain: string, from: nat, p: nat)
    requires from <= |s|
    requires GapStart(Scan(s, domain, from), from, |Scan(s, domain, from)|) <= p <= |s|
    ensures MatchAt(s, p, domain).None?
    decreases |s| - from, 1
  {
    if from == |s| {
      NoMatchAtEnd(s, domain);
    } else if MatchAt(s, from, domain).Some? {
      ScanMissesNoTailAfterMatch(s, domain, from, p);
    } else if p > from {
      ScanMissesNoTailAfterGap(s, domain, from, p);
    }
  }

  /** The case of `ScanMissesNoTailAt` where a match starts at `from`. */
  lemma {:induction false} ScanMissesNoTailAfterMatch(s: string, domain: string, from: nat, p: nat)
    requires from < |s| && MatchAt(s, from, domain).Some?
    requires GapStart(Scan(s, domain, from), from, |Scan(s, domain, from)|) <= p <= |s|
    ensures MatchAt(s, p, domain).None?
    decreases |s| - from, 0
  {
    var e := MatchAt(s, from, domain).value;
    TailGapSome(s, domain, from, e);
    ScanMissesNoTailAt(s, domain, e, p);
  }

  /** The case of `ScanMissesNoTailAt` where no match starts at `from` and `p` lies beyond it. */
  lemma {:induction false} ScanMissesNoTailAfterGap(s: string, domain: string, from: nat, p: nat)
    requires from < p && from < |s| && MatchAt(s, from, domain).None?
    requires GapStart(Scan(s, domain, from), from, |Scan(s, domain, from)|) <= p <= |s|
    ensures MatchAt(s, p, domain).None?
    decreases |s| - from, 0
  {
    TailGapNone(s, domain, from);
    ScanMissesNoTailAt(s, domain, from + 1, p);
  }

  /** Where a match starts, the scan's tail begins where the rest of the scan's tail begins. */
  lemma TailGapSome(s: string, domain: string, from: nat, e: nat)
    requires from < |s| && MatchAt(s, from, domain) == Some(e)
    ensures GapStart(Scan(s, domain, from), from, |Scan(s, domain, from)|)
      == GapStart(Scan(s, domain, e), e, |Scan(s, domain, e)|)
  {
    ScanStepSome(s, domain, from, e);
    GapStartCons(Span(from, e), Scan(s, domain, e), from);
  }

  /** Putting a span in front of a list of spans leaves the end of the last gap where it was. */
  lemma GapStartCons(x: Span, rest: seq<Span>, from: nat)
    ensures GapStart([x] + rest, from, |rest| + 1) == GapStart(rest, x.end, |rest|)
  {
    if rest != [] {
      assert ([x] + rest)[|rest|] == rest[|rest| - 1];
    }
  }

  /** Where no match starts, the scan's tail begins there or where the tail of the scan from the next position begins. */
  lemma TailGapNone(s: string, domain: string, from: nat)
    requires from < |s| && MatchAt(s, from, domain).None?
    ensures GapStart(Scan(s, domain, from), from, |Scan(s, domain, from)|) == from
      || GapStart(Scan(s, domain, from), from, |Scan(s, domain, from)|)
        == GapStart(Scan(s, domain, from + 1), from + 1, |Scan(s, domain, from + 1)|)
  {
    ScanStepNone(s, domain, from);
  }

  /** No match starts where the run of label characters is empty or is not followed by a dot. */
  lemma NoGroupNoMatch(s: string, domain: string, p: nat)
    requires p <= |s|
    requires RunEnd(s, p) == p || RunEnd(s, p) == |s| || s[RunEnd(s, p)] != '.'
    ensures MatchAt(s, p, domain).None?
  {
  }

  /** No match starts at the end of the body: a group needs at least one character. */
  lemma NoMatchAtEnd(s: string, domain: string)
    ensures MatchAt(s, |s|, domain).None?
  {
    assert RunEnd(s, |s|) == |s|;
  }

  /** The strings `FindAllString(content, -1)` returns, in the order found. */
  function FindAll(s: string, domain: string): (ms: seq<string>)
    ensures |ms| == |Scan(s, domain, 0)|
  {
    var spans := Scan(s, domain, 0);
    seq(|spans|, k requires 0 <= k < |spans| => s[spans[k].start..spans[k].end])
  }

  /** Every string `FindAll` returns is a match, in the declarative sense, at its reported span. */
  lemma FindAllReportsMatches(s: string, domain: string)
    ensures forall k :: 0 <= k < |FindAll(s, domain)| ==>
      && IsMatchSpan(s, Scan(s, domain, 0)[k].start, Scan(s, domain, 0)[k].end, domain)
      && FindAll(s, domain)[k] == s[Scan(s, domain, 0)[k].start..Scan(s, domain, 0)[k].end]
  {
    var spans := Scan(s, domain, 0);
    ScanReportsEngineMatches(s, domain, 0);
    forall k | 0 <= k < |spans| ensures IsMatchSpan(s, spans[k].start, spans[k].end, domain) {
      assert MatchAt(s, Scan(s, domain, 0)[k].start, domain) == Some(Scan(s, domain, 0)[k].end);
      MatchAtIsMatchSpan(s, spans[k].start, domain);
    }
  }

  /**
   * `FindAll` in the declarative reading of the pattern: every reported
   * string is a match of the right shape found in `s`, the longest that starts
   * at its position.
   */
  lemma FindAllReportsLongestMatches(s: string, domain: string)
    ensures var spans := Scan(s, domain, 0);
      forall k :: 0 <= k < |spans| ==>
        && IsMatchSpan(s, spans[k].start, spans[k].end, domain)
        && FindAll(s, domain)[k] == s[spans[k].start..spans[k].end]
        && (forall j: nat :: IsMatchSpan(s, spans[k].start, j, domain) ==> j <= spans[k].end)
  {
    var spans := Scan(s, domain, 0);
    ScanReportsEngineMatches(s, domain, 0);
    forall k | 0 <= k < |spans|
      ensures IsMatchSpan(s, spans[k].start, spans[k].end, domain)
      ensures forall j: nat :: IsMatchSpan(s, spans[k].start, j, domain) ==> j <= spans[k].end
    {
      assert MatchAt(s, Scan(s, domain, 0)[k].start, domain) == Some(Scan(s, domain, 0)[k].end);
      MatchAtIsLongestMatch(s, spans[k].start, domain);
    }
  }

  /** The reported matches are scanned left to right and do not overlap. */
  lemma FindAllIsNonOverlapping(s: string, domain: string)
    ensures var spans := Scan(s, domain, 0);
      forall k :: 0 <= k < |spans| - 1 ==> spans[k].end <= spans[k + 1].start
  {
    var spans := Scan(s, domain, 0);
    ScanStartsAfterGap(s, domain, 0);
    forall k | 0 <= k < |spans| - 1 ensures spans[k].end <= spans[k + 1].start {
      assert GapStart(Scan(s, domain, 0), 0, k + 1) <= Scan(s, domain, 0)[k + 1].start;
    }
  }

  /**
   * No match of the pattern starts at a position the scan passed over
   * without reporting: before the first match, between two matches, or
   * after the last one.
   */
  lemma FindAllIsLeftmost(s: string, domain: string)
    ensures var spans := Scan(s, domain, 0);
      forall k, p: nat, j: nat :: 0 <= k < |spans| && GapStart(spans, 0, k) <= p < spans[k].start ==>
        !IsMatchSpan(s, p, j, domain)
    ensures var spans := Scan(s, domain, 0);
      forall p: nat, j: nat :: GapStart(spans, 0, |spans|) <= p ==> !IsMatchSpan(s, p, j, domain)
  {
    var spans := Scan(s, domain, 0);
    forall k, p: nat, j: nat | 0 <= k < |spans| && GapStart(spans, 0, k) <= p < spans[k].start
      ensures !IsMatchSpan(s, p, j, domain)
    {
      ScanSkipsNoMatch(s, domain, 0);
      assert GapStart(Scan(s, domain, 0), 0, k) <= p < Scan(s, domain, 0)[k].start;
      assert MatchAt(s, p, domain).None?;
      MatchAtIsLongestMatch(s, p, domain);
    }
    forall p: nat, j: nat | GapStart(spans, 0, |spans|) <= p ensures !IsMatchSpan(s, p, j, domain) {
      if p <= |s| {
        ScanMissesNoTail(s, domain, 0);
        assert GapStart(Scan(s, domain, 0), 0, |Scan(s, domain, 0)|) <= p;
        assert MatchAt(s, p, domain).None?;
        MatchAtIsLongestMatch(s, p, domain);
      }
    }
  }

  /**
   * Every string `FindAll` returns ends with the domain, is one or more label
   * groups before it, and occurs in `s`.
   */
  lemma FindAllShape(s: string, domain: string)
    ensures forall m :: m in FindAll(s, domain) ==> IsSubdomainOf(m, domain) && IsSubstring(m, s)
  {
    var ms := FindAll(s, domain);
    forall m | m in ms ensures IsSubdomainOf(m, domain) && IsSubstring(m, s) {
      var k :| 0 <= k < |ms| && ms[k] == m;
      FindAllShapeAt(s, domain, k);
    }
  }

  /** The string reported for span `k` has the subdomain shape and occurs at the span's start. */
  lemma FindAllShapeAt(s: string, domain: string, k: nat)
    requires k < |FindAll(s, domain)|
    ensures IsSubdomainOf(FindAll(s, domain)[k], domain)
    ensures OccursAt(s, Scan(s, domain, 0)[k].start, FindAll(s, domain)[k])
  {
    FindAllReportsMatches(s, domain);
    assert IsMatchSpan(s, Scan(s, domain, 0)[k].start, Scan(s, domain, 0)[k].end, domain);
  }

  /** A body in which the domain does not occur yields no match. */
  lemma FindAllWithoutDomain(s: string, domain: string)
    requires forall i: nat :: !OccursAt(s, i, domain)
    ensures FindAll(s, domain) == []
  {
    var spans := Scan(s, domain, 0);
    if spans != [] {
      FindAllReportsMatches(s, domain);
      assert IsMatchSpan(s, Scan(s, domain, 0)[0].start, Scan(s, domain, 0)[0].end, domain);
      MatchSpanIsChain(s, spans[0].start, spans[0].end, domain);
    }
  }

  // ---------------------------------------------------------------------------
  // A worked example
  //
  // The lemmas below take the domain as a parameter `d` with `requires d ==
  // "ford.com"` rather than the literal itself: this only keeps the verifier
  // from unfolding the recursive definitions on the literal; the statements
  // are about the domain `ford.com`.
  // ---------------------------------------------------------------------------

  /** The example body `go to a.b.ford.com and www.ford.com today`. */
  const FordBody: string := "go to a.b.ford.com and www.ford.com today"

  /** No match starts in ` today`, at the end of the example body. */
  lemma FordScanTail(d: string)
    requires d == "ford.com"
    ensures Scan(FordBody, d, 35) == []
  {
    var s := FordBody;
    assert RunEnd(s, 41) == 41;
    assert s[40] == 'y';
    assert RunEnd(s, 40) == 41;
    assert s[39] == 'a';
    assert RunEnd(s, 39) == 41;
    assert s[38] == 'd';
    assert RunEnd(s, 38) == 41;
    assert s[37] == 'o';
    assert RunEnd(s, 37) == 41;
    assert s[36] == 't';
    assert RunEnd(s, 36) == 41;
    assert s[35] == ' ';
    assert RunEnd(s, 35) == 35;
    NoMatchAtEnd(s, d);
    NoGroupNoMatch(s, d, 40);
    ScanStepNone(s, d, 40);
    NoGroupNoMatch(s, d, 39);
    ScanStepNone(s, d, 39);
    NoGroupNoMatch(s, d, 38);
    ScanStepNone(s, d, 38);
    NoGroupNoMatch(s, d, 37);
    ScanStepNone(s, d, 37);
    NoGroupNoMatch(s, d, 36);
    ScanStepNone(s, d, 36);
    NoGroupNoMatch(s, d, 35);
    ScanStepNone(s, d, 35);
    assert Scan(s, d, 35) == [];
  }

  /** At 23 the groups `www.` and `ford.` chain, and the domain follows the first one only. */
  lemma FordMatchSecond(d: string)
    requires d == "ford.com"
    ensures MatchAt(FordBody, 23, d) == Some(35)
  {
    var s := FordBody;
    assert s[35] == ' ';
    assert RunEnd(s, 35) == 35;
    assert s[34] == 'm';
    assert RunEnd(s, 34) == 35;
    assert s[33] == 'o';
    assert RunEnd(s, 33) == 35;
    assert s[32] == 'c';
    assert RunEnd(s, 32) == 35;
    assert s[31] == '.';
    assert RunEnd(s, 31) == 31;
    assert s[30] == 'd';
    assert RunEnd(s, 30) == 31;
    assert s[29] == 'r';
    assert RunEnd(s, 29) == 31;
    assert s[28] == 'o';
    assert RunEnd(s, 28) == 31;
    assert s[27] == 'f';
    assert RunEnd(s, 27) == 31;
    assert s[26] == '.';
    assert RunEnd(s, 26) == 26;
    assert s[25] == 'w';
    assert RunEnd(s, 25) == 26;
    assert s[24] == 'w';
    assert RunEnd(s, 24) == 26;
    assert s[23] == 'w';
    assert RunEnd(s, 23) == 26;
    assert GroupEnd(s, 32) == None && s[32..40][0] != d[0];
    assert GreedyTail(s, 32, d) == None;
    assert GroupEnd(s, 27) == Some(32) && s[27..35] == d;
    assert GreedyTail(s, 27, d) == Some(35);
    assert GroupEnd(s, 23) == Some(27);
  }

  /** No match starts in ` and `, between the two matches. */
  lemma FordGapSecond(d: string)
    requires d == "ford.com"
    ensures Scan(FordBody, d, 18) == Scan(FordBody, d, 23)
  {
    var s := FordBody;
    assert s[23] == 'w';
    assert RunEnd(s, 23) == 26;
    assert s[22] == ' ';
    assert RunEnd(s, 22) == 22;
    assert s[21] == 'd';
    assert RunEnd(s, 21) == 22;
    assert s[20] == 'n';
    assert RunEnd(s, 20) == 22;
    assert s[19] == 'a';
    assert RunEnd(s, 19) == 22;
    assert s[18] == ' ';
    assert RunEnd(s, 18) == 18;
    NoGroupNoMatch(s, d, 22);
    ScanStepNone(s, d, 22);
    NoGroupNoMatch(s, d, 21);
    ScanStepNone(s, d, 21);
    NoGroupNoMatch(s, d, 20);
    ScanStepNone(s, d, 20);
    NoGroupNoMatch(s, d, 19);
    ScanStepNone(s, d, 19);
    NoGroupNoMatch(s, d, 18);
    ScanStepNone(s, d, 18);
    assert Scan(s, d, 18) == Scan(s, d, 23);
  }

  /** From position 18 the scan finds `www.ford.com` only. */
  lemma FordScanSecond(d: string)
    requires d == "ford.com"
    ensures Scan(FordBody, d, 18) == [Span(23, 35)]
  {
    FordGapSecond(d);
    FordMatchSecond(d);
    ScanStepSome(FordBody, d, 23, 35);
    FordScanTail(d);
  }

  /** At 6 the groups `a.`, `b.` and `ford.` chain, and the domain follows the second one, not the third. */
  lemma FordMatchFirst(d: string)
    requires d == "ford.com"
    ensures MatchAt(FordBody, 6, d) == Some(18)
  {
    var s := FordBody;
    assert s[18] == ' ';
    assert RunEnd(s, 18) == 18;
    assert s[17] == 'm';
    assert RunEnd(s, 17) == 18;
    assert s[16] == 'o';
    assert RunEnd(s, 16) == 18;
    assert s[15] == 'c';
    assert RunEnd(s, 15) == 18;
    assert s[14] == '.';
    assert RunEnd(s, 14) == 14;
    assert s[13] == 'd';
    assert RunEnd(s, 13) == 14;
    assert s[12] == 'r';
    assert RunEnd(s, 12) == 14;
    assert s[11] == 'o';
    assert RunEnd(s, 11) == 14;
    assert s[10] == 'f';
    assert RunEnd(s, 10) == 14;
    assert s[9] == '.';
    assert RunEnd(s, 9) == 9;
    assert s[8] == 'b';
    assert RunEnd(s, 8) == 9;
    assert s[7] == '.';
    assert RunEnd(s, 7) == 7;
    assert s[6] == 'a';
    assert RunEnd(s, 6) == 7;
    assert GroupEnd(s, 15) == None && s[15..23][0] != d[0];
    assert GreedyTail(s, 15, d) == None;
    assert GroupEnd(s, 10) == Some(15) && s[10..18] == d;
    assert GreedyTail(s, 10, d) == Some(18);
    assert GroupEnd(s, 8) == Some(10);
    assert GreedyTail(s, 8, d) == Some(18);
    assert s[7] == '.';
    assert GroupEnd(s, 6) == Some(8);
  }

  /** No match starts in `go to `, before the first match. */
  lemma FordGapFirst(d: string)
    requires d == "ford.com"
    ensures Scan(FordBody, d, 0) == Scan(FordBody, d, 6)
  {
    var s := FordBody;
    assert s[6] == 'a';
    assert RunEnd(s, 6) == 7;
    assert s[5] == ' ';
    assert RunEnd(s, 5) == 5;
    assert s[4] == 'o';
    assert RunEnd(s, 4) == 5;
    assert s[3] == 't';
    assert RunEnd(s, 3) == 5;
    assert s[2] == ' ';
    assert RunEnd(s, 2) == 2;
    assert s[1] == 'o';
    assert RunEnd(s, 1) == 2;
    assert s[0] == 'g';
    assert RunEnd(s, 0) == 2;
    NoGroupNoMatch(s, d, 5);
    ScanStepNone(s, d, 5);
    NoGroupNoMatch(s, d, 4);
    ScanStepNone(s, d, 4);
    NoGroupNoMatch(s, d, 3);
    ScanStepNone(s, d, 3);
    NoGroupNoMatch(s, d, 2);
    ScanStepNone(s, d, 2);
    NoGroupNoMatch(s, d, 1);
    ScanStepNone(s, d, 1);
    NoGroupNoMatch(s, d, 0);
    ScanStepNone(s, d, 0);
    assert Scan(s, d, 0) == Scan(s, d, 6);
  }

  /** The whole scan of the example body. */
  lemma FordScan(d: string)
    requires d == "ford.com"
    ensures Scan(FordBody, d, 0) == [Span(6, 18), Span(23, 35)]
  {
    FordGapFirst(d);
    FordMatchFirst(d);
    ScanStepSome(FordBody, d, 6, 18);
    FordScanSecond(d);
  }

  /** The two matched stretches of the example body. */
  lemma FordSlices()
    ensures FordBody[6..18] == "a.b.ford.com"
    ensures FordBody[23..35] == "www.ford.com"
  {
    var s := FordBody;
    assert s == "go to " + "a.b.ford.com" + " and " + "www.ford.com" + " today";
  }

  /**
   * For the body `go to a.b.ford.com and www.ford.com today` and the domain
   * `ford.com`, the raw matches are `a.b.ford.com` and `www.ford.com`.
   */
  lemma FindAllFordExample(d: string)
    requires d == "ford.com"
    ensures FindAll(FordBody, d) == ["a.b.ford.com", "www.ford.com"]
  {
    FordScan(d);
    FordSlices();
    var ms := FindAll(FordBody, d);
    assert |ms| == 2;
    assert ms[0] == FordBody[6..18] == "a.b.ford.com";
    assert ms[1] == FordBody[23..35] == "www.ford.com";
  }

  /** Past the last dot of `s` no match can start, so the scan reports nothing more. */
  lemma {:induction false} ScanWithoutDot(s: string, domain: string, from: nat)
    requires from <= |s|
    requires forall k :: from <= k < |s| ==> s[k] != '.'
    ensures Scan(s, domain, from) == []
    decreases |s| - from
  {
    if from < |s| {
      var r := RunEnd(s, from);
      assert r == |s| || s[r] != '.';
      NoGroupNoMatch(s, domain, from);
      ScanWithoutDot(s, domain, from + 1);
    }
  }

  /** The example body `a.ford.community`, where the domain runs on into a longer word. */
  const CommunityBody: string := "a.ford.community"

  /** At 0 the groups `a.` and `ford.` chain, and the domain follows the first one only. */
  lemma CommunityMatch(d: string)
    requires d == "ford.com"
    ensures MatchAt(CommunityBody, 0, d) == Some(10)
  {
    var s := CommunityBody;
    assert s[1] == '.';
    assert s[6] == '.';
    assert RunEnd(s, 16) == 16;
    assert s[7] == 'c';
    assert RunEnd(s, 7) == 16;
    assert s[6] == '.';
    assert RunEnd(s, 6) == 6;
    assert s[2] == 'f';
    assert RunEnd(s, 2) == 6;
    assert s[1] == '.';
    assert RunEnd(s, 1) == 1;
    assert s[0] == 'a';
    assert RunEnd(s, 0) == 1;
    assert GroupEnd(s, 7) == None && s[7..15][0] != d[0];
    assert GreedyTail(s, 7, d) == None;
    assert GroupEnd(s, 2) == Some(7) && s[2..10] == d;
    assert GreedyTail(s, 2, d) == Some(10);
    assert GroupEnd(s, 0) == Some(2);
  }

  /** The whole scan of `a.ford.community`: one match, then no dot and so no further match. */
  lemma CommunityScan(d: string)
    requires d == "ford.com"
    ensures Scan(CommunityBody, d, 0) == [Span(0, 10)]
  {
    CommunityMatch(d);
    ScanStepSome(CommunityBody, d, 0, 10);
    CommunityNoDotAfterMatch();
    ScanWithoutDot(CommunityBody, d, 10);
  }

  /** `munity`, after the match, holds no dot. */
  lemma CommunityNoDotAfterMatch()
    ensures forall k :: 10 <= k < |CommunityBody| ==> CommunityBody[k] != '.'
  {
    var s := CommunityBody;
    assert s == "a.ford.com" + "munity";
  }

  /** The matched stretch of `a.ford.community`. */
  lemma CommunitySlice()
    ensures CommunityBody[0..10] == "a.ford.com"
  {
    var s := CommunityBody;
    assert s == "a.ford.com" + "munity";
  }

  /**
   * No word boundary is required after the domain: in `a.ford.community` the
   * domain `ford.com` yields the match `a.ford.com`.
   */
  lemma FindAllIgnoresWordBoundary(d: string)
    requires d == "ford.com"
    ensures FindAll(CommunityBody, d) == ["a.ford.com"]
  {
    CommunityScan(d);
    CommunitySlice();
    var ms := FindAll(CommunityBody, d);
    assert |ms| == 1;
    assert ms[0] == CommunityBody[0..10];
  }
}
