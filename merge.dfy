/** The span merger of the anonymizer back end (backend/app.py, merge_spans):
    concatenate the recogniser's spans and the pattern spans, sort them by
    descending start (Python's sort is stable), then sweep greedily with a
    running boundary that starts at the length of the text. */
module Merge {
  import opened Spans

  // ---------------------------------------------------------------------
  // Stable sort by descending start (`sorted(..., key=start, reverse=True)`)
  // ---------------------------------------------------------------------

  /** Inserts `x` before the first element whose start is not above its own,
      so that `x` stays ahead of every element with an equal start. */
  function InsertDesc(x: Span, s: seq<Span>): (r: seq<Span>)
    ensures |r| == |s| + 1 && x in r
  {
    if s == [] || s[0].start <= x.start then [x] + s else [s[0]] + InsertDesc(x, s[1..])
  }

  function SortByStartDesc(s: seq<Span>): (r: seq<Span>)
    ensures |r| == |s|
  {
    if s == [] then [] else InsertDesc(s[0], SortByStartDesc(s[1..]))
  }

  predicate SortedDesc(s: seq<Span>)
  {
    forall i, j :: 0 <= i < j < |s| ==> s[i].start >= s[j].start
  }

  /** The spans of `s` whose start is `k`, in order. */
  function AtStart(s: seq<Span>, k: nat): seq<Span>
  {
    if s == [] then [] else (if s[0].start == k then [s[0]] else []) + AtStart(s[1..], k)
  }

  /** The spans of `s` whose start is above `k`, in order. */
  function Above(s: seq<Span>, k: nat): seq<Span>
  {
    if s == [] then [] else (if s[0].start > k then [s[0]] else []) + Above(s[1..], k)
  }

  /** The spans of `s` whose start is below `k`, in order. */
  function Below(s: seq<Span>, k: nat): seq<Span>
  {
    if s == [] then [] else (if s[0].start < k then [s[0]] else []) + Below(s[1..], k)
  }

  /** The three filters keep only elements of their input, with the start they select. */
  lemma {:induction false} FilterMembers(s: seq<Span>, k: nat)
    ensures forall x :: x in AtStart(s, k) ==> x in s && x.start == k
    ensures forall x :: x in Above(s, k) ==> x in s && x.start > k
    ensures forall x :: x in Below(s, k) ==> x in s && x.start < k
  {
    if s != [] {
      FilterMembers(s[1..], k);
    }
  }

  lemma {:induction false} InsertDescMembers(x: Span, s: seq<Span>)
    ensures multiset(InsertDesc(x, s)) == multiset{x} + multiset(s)
  {
    if s != [] && s[0].start > x.start {
      InsertDescMembers(x, s[1..]);
      assert s == [s[0]] + s[1..];
    }
  }

  lemma {:induction false} InsertDescSorted(x: Span, s: seq<Span>)
    requires SortedDesc(s)
    ensures SortedDesc(InsertDesc(x, s))
  {
    if s != [] && s[0].start > x.start {
      var t := InsertDesc(x, s[1..]);
      InsertDescSorted(x, s[1..]);
      InsertDescMembers(x, s[1..]);
      var r := [s[0]] + t;
      forall j | 0 < j < |r| ensures r[0].start >= r[j].start {
        assert r[j] == t[j - 1];
        assert t[j - 1] in multiset(t);
        if t[j - 1] != x {
          assert t[j - 1] in multiset(s[1..]);
          assert t[j - 1] in s[1..];
        }
      }
    }
  }

  lemma {:induction false} InsertDescAtStart(x: Span, s: seq<Span>, k: nat)
    ensures AtStart(InsertDesc(x, s), k) == (if x.start == k then [x] else []) + AtStart(s, k)
  {
    var xs := if x.start == k then [x] else [];
    if s == [] || s[0].start <= x.start {
      var r := [x] + s;
      assert r[0] == x && r[1..] == s;
      assert AtStart(r, k) == xs + AtStart(s, k);
    } else {
      var t := InsertDesc(x, s[1..]);
      InsertDescAtStart(x, s[1..], k);
      var r := [s[0]] + t;
      assert r[0] == s[0] && r[1..] == t;
      var hs := if s[0].start == k then [s[0]] else [];
      assert AtStart(r, k) == hs + AtStart(t, k);
      assert AtStart(s, k) == hs + AtStart(s[1..], k);
      assert hs == [] || xs == [];
    }
  }

  /** The sort yields a descending permutation of its input. */
  lemma {:induction false} SortByStartDescCorrect(s: seq<Span>)
    ensures SortedDesc(SortByStartDesc(s))
    ensures multiset(SortByStartDesc(s)) == multiset(s)
  {
    if s != [] {
      SortByStartDescCorrect(s[1..]);
      InsertDescSorted(s[0], SortByStartDesc(s[1..]));
      InsertDescMembers(s[0], SortByStartDesc(s[1..]));
      assert s == [s[0]] + s[1..];
    }
  }

  /** Stability: the spans that share a start keep their input order. */
  lemma {:induction false} SortByStartDescStable(s: seq<Span>, k: nat)
    ensures AtStart(SortByStartDesc(s), k) == AtStart(s, k)
  {
    if s != [] {
      SortByStartDescStable(s[1..], k);
      InsertDescAtStart(s[0], SortByStartDesc(s[1..]), k);
    }
  }

  lemma {:induction false} AtStartConcat(a: seq<Span>, b: seq<Span>, k: nat)
    ensures AtStart(a + b, k) == AtStart(a, k) + AtStart(b, k)
  {
    if a != [] {
      assert (a + b)[1..] == a[1..] + b;
      AtStartConcat(a[1..], b, k);
    } else {
      assert a + b == b;
    }
  }

  lemma {:induction false} NoneAtOrAbove(s: seq<Span>, k: nat)
    requires forall x :: x in s ==> x.start < k
    ensures AtStart(s, k) == [] && Above(s, k) == []
  {
    if s != [] {
      NoneAtOrAbove(s[1..], k);
    }
  }

  lemma {:induction false} NoneAbove(s: seq<Span>, k: nat)
    requires forall x :: x in s ==> x.start <= k
    ensures Above(s, k) == []
  {
    if s != [] {
      NoneAbove(s[1..], k);
    }
  }

  /** A descending sequence splits into the spans above `k`, those at `k` and
      those below `k`, in that order. */
  lemma {:induction false} SortedDescSplit(s: seq<Span>, k: nat)
    requires SortedDesc(s)
    ensures s == Above(s, k) + AtStart(s, k) + Below(s, k)
  {
    if s != [] {
      var h, t := s[0], s[1..];
      assert SortedDesc(t);
      SortedDescSplit(t, k);
      if h.start <= k {
        forall x | x in t ensures x.start <= h.start {
          var j :| 0 <= j < |t| && t[j] == x;
          assert s[j + 1] == x;
        }
        if h.start == k {
          NoneAbove(t, k);
        } else {
          NoneAtOrAbove(t, k);
        }
      }
      SplitCons(h, t, k);
      assert s == [h] + t;
    }
  }

  /** One step of the split: putting `h` in front of a split sequence whose
      spans do not start above `h` (when `h` itself is not above `k`). */
  lemma SplitCons(h: Span, t: seq<Span>, k: nat)
    requires t == Above(t, k) + AtStart(t, k) + Below(t, k)
    requires h.start <= k ==> Above(t, k) == []
    requires h.start < k ==> AtStart(t, k) == []
    ensures [h] + t == Above([h] + t, k) + AtStart([h] + t, k) + Below([h] + t, k)
  {
    FiltersCons(h, t, k);
    ConsSplit(h, Above(t, k), AtStart(t, k), Below(t, k));
  }

  lemma ConsSplit(h: Span, hi: seq<Span>, eq: seq<Span>, lo: seq<Span>)
    ensures ([h] + hi) + eq + lo == [h] + (hi + eq + lo)
    ensures [] + ([h] + eq) + lo == [h] + ([] + eq + lo)
    ensures [] + [] + ([h] + lo) == [h] + ([] + [] + lo)
  {
  }

  /** The three filters on a sequence with `h` in front. */
  lemma FiltersCons(h: Span, t: seq<Span>, k: nat)
    ensures Above([h] + t, k) == (if h.start > k then [h] else []) + Above(t, k)
    ensures AtStart([h] + t, k) == (if h.start == k then [h] else []) + AtStart(t, k)
    ensures Below([h] + t, k) == (if h.start < k then [h] else []) + Below(t, k)
  {
    assert ([h] + t)[1..] == t;
  }

  // ---------------------------------------------------------------------
  // Greedy sweep
  // ---------------------------------------------------------------------

  /** The spans the loop keeps from `spans` when the boundary is `last`. */
  function Sweep(spans: seq<Span>, last: nat): (r: seq<Span>)
    ensures |r| <= |spans|
    ensures |r| > 0 ==> r[0].end <= last
  {
    if spans == [] then []
    else if spans[0].end <= last then [spans[0]] + Sweep(spans[1..], spans[0].start)
    else Sweep(spans[1..], last)
  }

  /** The value of `last_start` after the loop has seen `spans`. */
  function Boundary(spans: seq<Span>, last: nat): (b: nat)
    ensures b == last || exists i :: 0 <= i < |spans| && b == spans[i].start
  {
    if spans == [] then last
    else Boundary(spans[1..], if spans[0].end <= last then spans[0].start else last)
  }

  /** Each span ends at or before the start of the span kept just before it,
      and the first one ends at or before `bound`. */
  predicate Chained(r: seq<Span>, bound: nat)
  {
    && (|r| > 0 ==> r[0].end <= bound)
    && forall i :: 0 < i < |r| ==> r[i].end <= r[i - 1].start
  }

  predicate WellFormed(s: seq<Span>)
  {
    forall x :: x in s ==> x.start <= x.end
  }

  /** `a` is obtained from `b` by dropping elements. */
  predicate IsSubsequence(a: seq<Span>, b: seq<Span>)
  {
    if b == [] then a == []
    else (a != [] && a[0] == b[0] && IsSubsequence(a[1..], b[1..])) || IsSubsequence(a, b[1..])
  }

  /** merge_spans with the recogniser's output and the pattern engine as inputs. */
  method MergeSpans(text: string, ner: string -> seq<NerEntity>, matches: (string, string) -> seq<Match>)
    returns (merged: seq<Span>)
    ensures merged == Sweep(SortByStartDesc(Adapted(ner(text)) + RegexHits(PiiKinds, text, matches)), |text|)
    ensures Chained(merged, |text|)
    ensures SortedDesc(merged)
    ensures forall x :: x in merged ==> x in Adapted(ner(text)) + RegexHits(PiiKinds, text, matches)
  {
    var cam := DetectPiiCamembert(ner(text));
    var reg := DetectPiiRegex(text, matches);
    var spans := SortByStartDesc(cam + reg);
    merged := SweepLoop(spans, |text|);
    MergedShape(cam, reg, |text|);
  }

  /** The loop of merge_spans over the sorted spans, with `last_start`
      starting at `bound`. */
  method SweepLoop(spans: seq<Span>, bound: nat) returns (merged: seq<Span>)
    ensures merged == Sweep(spans, bound)
  {
    merged := [];
    var lastStart: nat := bound;
    var i := 0;
    while i < |spans|
      invariant 0 <= i <= |spans|
      invariant merged + Sweep(spans[i..], lastStart) == Sweep(spans, bound)
    {
      var s := spans[i];
      SweepAt(spans, i, lastStart);
      if s.end <= lastStart {
        merged := merged + [s];
        lastStart := s.start;
      }
      i := i + 1;
    }
    assert spans[|spans|..] == [];
  }

  /** One step of the sweep loop, at index `i`. */
  lemma SweepAt(spans: seq<Span>, i: nat, last: nat)
    requires i < |spans|
    ensures Sweep(spans[i..], last) ==
      if spans[i].end <= last then [spans[i]] + Sweep(spans[i + 1..], spans[i].start)
      else Sweep(spans[i + 1..], last)
  {
    assert spans[i..][1..] == spans[i + 1..];
  }

  /** The merger's output does not overlap, is in descending start order, and
      consists of input spans kept unchanged. */
  lemma MergedShape(cam: seq<Span>, reg: seq<Span>, textLen: nat)
    ensures var merged := Sweep(SortByStartDesc(cam + reg), textLen);
      && Chained(merged, textLen)
      && SortedDesc(merged)
      && IsSubsequence(merged, SortByStartDesc(cam + reg))
      && forall x :: x in merged ==> x in cam + reg
  {
    var spans := SortByStartDesc(cam + reg);
    var merged := Sweep(spans, textLen);
    SweepChained(spans, textLen);
    SweepSubsequence(spans, textLen);
    SortByStartDescCorrect(cam + reg);
    SubsequenceSorted(merged, spans);
    SubsequenceMembers(merged, spans);
    forall x | x in merged ensures x in cam + reg {
      assert x in multiset(spans);
      assert x in multiset(cam + reg);
    }
  }

  /** Non-overlap: every kept span ends at or before the start of the span kept
      just before it, and the first one ends within the boundary. */
  lemma {:induction false} SweepChained(spans: seq<Span>, last: nat)
    ensures Chained(Sweep(spans, last), last)
  {
    if spans != [] {
      SweepChained(spans[1..], if spans[0].end <= last then spans[0].start else last);
    }
  }

  /** Spans are kept unchanged or dropped, never altered or invented. */
  lemma {:induction false} SweepSubsequence(spans: seq<Span>, last: nat)
    ensures IsSubsequence(Sweep(spans, last), spans)
  {
    if spans != [] {
      SweepSubsequence(spans[1..], if spans[0].end <= last then spans[0].start else last);
      if spans[0].end <= last {
        assert ([spans[0]] + Sweep(spans[1..], spans[0].start))[1..] == Sweep(spans[1..], spans[0].start);
      }
    }
  }

  /** A subsequence keeps only elements of its source. */
  lemma {:induction false} SubsequenceMembers(a: seq<Span>, b: seq<Span>)
    requires IsSubsequence(a, b)
    ensures forall x :: x in a ==> x in b
    decreases |b|
  {
    if b != [] {
      if a != [] && a[0] == b[0] && IsSubsequence(a[1..], b[1..]) {
        SubsequenceMembers(a[1..], b[1..]);
        forall x | x in a ensures x in b {
          if x != a[0] {
            assert x in a[1..];
            assert x in b[1..];
          }
        }
      } else {
        SubsequenceMembers(a, b[1..]);
        forall x | x in a ensures x in b {
          assert x in b[1..];
        }
      }
    }
  }

  /** A subsequence of a descending sequence is descending. */
  lemma {:induction false} SubsequenceSorted(a: seq<Span>, b: seq<Span>)
    requires IsSubsequence(a, b) && SortedDesc(b)
    ensures SortedDesc(a)
    decreases |b|
  {
    if b != [] {
      assert SortedDesc(b[1..]);
      if a != [] && a[0] == b[0] && IsSubsequence(a[1..], b[1..]) {
        SubsequenceSorted(a[1..], b[1..]);
        SubsequenceMembers(a[1..], b[1..]);
        HeadAboveTail(b);
        forall i, j | 0 <= i < j < |a| ensures a[i].start >= a[j].start {
          assert a[j] == a[1..][j - 1];
          if i > 0 {
            assert a[i] == a[1..][i - 1];
          } else {
            assert a[j] in b[1..];
          }
        }
      } else {
        SubsequenceSorted(a, b[1..]);
      }
    }
  }

  lemma HeadAboveTail(b: seq<Span>)
    requires b != [] && SortedDesc(b)
    ensures forall x :: x in b[1..] ==> x.start <= b[0].start
  {
    forall x | x in b[1..] ensures x.start <= b[0].start {
      var j :| 0 <= j < |b[1..]| && b[1..][j] == x;
      assert b[j + 1] == x;
    }
  }

  /** Bounds: when every input span has start <= end, every kept span lies
      within [0, last); with last = len(text), spans running past the text
      are discarded. */
  lemma {:induction false} SweepWithinBound(spans: seq<Span>, last: nat)
    requires WellFormed(spans)
    ensures forall x :: x in Sweep(spans, last) ==> x.start <= x.end <= last
  {
    if spans != [] {
      var s := spans[0];
      SweepWithinBound(spans[1..], if s.end <= last then s.start else last);
    }
  }

  /** Greedy rule: sweeping `p + q` is sweeping `p`, then sweeping `q` from the
      boundary `p` leaves behind. */
  lemma {:induction false} SweepSplit(p: seq<Span>, q: seq<Span>, last: nat)
    ensures Sweep(p + q, last) == Sweep(p, last) + Sweep(q, Boundary(p, last))
  {
    if p == [] {
      assert p + q == q;
    } else {
      assert (p + q)[1..] == p[1..] + q;
      SweepSplit(p[1..], q, if p[0].end <= last then p[0].start else last);
    }
  }

  /** Greedy rule at one span: `x` is rejected exactly when its end exceeds
      the boundary left by the spans before it, and a kept `x` moves the
      boundary down to its own start. */
  lemma SweepDecision(p: seq<Span>, x: Span, q: seq<Span>, last: nat)
    ensures Sweep(p + [x] + q, last) ==
      Sweep(p, last) + (if x.end <= Boundary(p, last) then [x] + Sweep(q, x.start) else Sweep(q, Boundary(p, last)))
  {
    SweepSplit(p, [x] + q, last);
    assert p + [x] + q == p + ([x] + q);
    assert ([x] + q)[1..] == q;
  }

  /** The first span of `g` that fits under `bound`, if any. */
  function FirstFit(g: seq<Span>, bound: nat): (r: seq<Span>)
    ensures |r| <= 1
  {
    if g == [] then [] else if g[0].end <= bound then [g[0]] else FirstFit(g[1..], bound)
  }

  lemma {:induction false} SweepNoneFits(g: seq<Span>, bound: nat)
    requires forall x :: x in g ==> x.end > bound
    ensures Sweep(g, bound) == []
  {
    if g != [] {
      SweepNoneFits(g[1..], bound);
    }
  }

  /** Among spans sharing a start `k`, none of zero width, the sweep keeps only
      the first one that fits, and nothing else. */
  lemma {:induction false} SweepGroup(g: seq<Span>, k: nat, bound: nat)
    requires forall x :: x in g ==> x.start == k < x.end
    ensures Sweep(g, bound) == FirstFit(g, bound)
  {
    if g != [] {
      if g[0].end <= bound {
        SweepNoneFits(g[1..], k);
      } else {
        SweepGroup(g[1..], k, bound);
      }
    }
  }

  lemma {:induction false} SweepMembers(spans: seq<Span>, last: nat)
    ensures forall x :: x in Sweep(spans, last) ==> x in spans
  {
    if spans != [] {
      SweepMembers(spans[1..], if spans[0].end <= last then spans[0].start else last);
    }
  }

  lemma {:induction false} AtStartSelf(s: seq<Span>, k: nat)
    requires forall x :: x in s ==> x.start == k
    ensures AtStart(s, k) == s
  {
    if s != [] {
      AtStartSelf(s[1..], k);
      assert s == [s[0]] + s[1..];
    }
  }

  lemma {:induction false} AtStartNone(s: seq<Span>, k: nat)
    requires forall x :: x in s ==> x.start != k
    ensures AtStart(s, k) == []
  {
    if s != [] {
      AtStartNone(s[1..], k);
    }
  }

  /** Tie-break: of the spans that start at `k` (none of zero width), the merger
      keeps exactly the first, in recogniser-then-pattern order, that fits under
      the boundary left by the spans with a higher start. */
  lemma MergeTieBreak(cam: seq<Span>, reg: seq<Span>, textLen: nat, k: nat)
    requires forall x :: x in cam + reg && x.start == k ==> x.end > k
    ensures var sorted := SortByStartDesc(cam + reg);
      AtStart(Sweep(sorted, textLen), k) ==
        FirstFit(AtStart(cam, k) + AtStart(reg, k), Boundary(Above(sorted, k), textLen))
  {
    var sorted := SortByStartDesc(cam + reg);
    SortByStartDescCorrect(cam + reg);
    SortedDescSplit(sorted, k);
    FilterMembers(sorted, k);
    var hi, eq, lo := Above(sorted, k), AtStart(sorted, k), Below(sorted, k);
    var b := Boundary(hi, textLen);
    SweepSplit(hi + eq, lo, textLen);
    SweepSplit(hi, eq, textLen);
    var swHi, swEq, swLo := Sweep(hi, textLen), Sweep(eq, b), Sweep(lo, Boundary(hi + eq, textLen));
    assert Sweep(sorted, textLen) == swHi + swEq + swLo;
    SortByStartDescStable(cam + reg, k);
    AtStartConcat(cam, reg, k);
    assert eq == AtStart(cam, k) + AtStart(reg, k);
    forall x | x in eq ensures x.start == k < x.end {
      assert x in multiset(sorted);
      assert x in cam + reg;
    }
    SweepGroup(eq, k, b);
    SweepMembers(hi, textLen);
    SweepMembers(lo, Boundary(hi + eq, textLen));
    SweepMembers(eq, b);
    AtStartNone(swHi, k);
    AtStartNone(swLo, k);
    AtStartSelf(swEq, k);
    AtStartConcat(swHi, swEq, k);
    AtStartConcat(swHi + swEq, swLo, k);
  }

  /** Example of the tie-break: "Lille" reported by the recogniser as an
      organisation and by the CITY pattern at the same offsets is kept once,
      with the recogniser's kind. */
  lemma TieBreakExample()
    ensures var cam := [Span("ORGANIZATION", 0, 5, "Lille")];
      var reg := [Span("CITY", 0, 5, "Lille")];
      Sweep(SortByStartDesc(cam + reg), 5) == cam
  {
    var cam := [Span("ORGANIZATION", 0, 5, "Lille")];
    var reg := [Span("CITY", 0, 5, "Lille")];
    var c, r := cam[0], reg[0];
    assert cam + reg == [c, r];
    assert SortByStartDesc([r]) == [r];
    assert SortByStartDesc([c, r]) == InsertDesc(c, [r]) == [c, r];
    assert Sweep([r], c.start) == [];
  }

  /** The recogniser's span is examined first but is not always the one kept:
      ORGANIZATION 3..9 does not fit under the boundary 8 left by ZIP_CODE
      8..12, while the CITY span 3..8 with the same start does. */
  lemma TieBreakFitExample()
    ensures var cam := [Span("ORGANIZATION", 3, 9, "Lille Metropole")];
      var reg := [Span("CITY", 3, 8, "Lille"), Span("ZIP_CODE", 8, 12, "59000")];
      Sweep(SortByStartDesc(cam + reg), 20) == [reg[1], reg[0]]
  {
    var o := Span("ORGANIZATION", 3, 9, "Lille Metropole");
    var c := Span("CITY", 3, 8, "Lille");
    var z := Span("ZIP_CODE", 8, 12, "59000");
    assert [o] + [c, z] == [o, c, z];
    assert [o, c, z][1..] == [c, z] && [c, z][1..] == [z];
    assert SortByStartDesc([z]) == [z];
    assert SortByStartDesc([c, z]) == InsertDesc(c, [z]) == [z, c];
    assert InsertDesc(o, [c]) == [o, c];
    assert SortByStartDesc([o, c, z]) == InsertDesc(o, [z, c]) == [z, o, c];
    assert [z, o, c][1..] == [o, c] && [o, c][1..] == [c];
    assert Sweep([c], 8) == [c];
    assert Sweep([o, c], 8) == [c];
    assert Sweep([z, o, c], 20) == [z, c];
  }
}
