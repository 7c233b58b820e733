/** Spans and the two detector adapters of the anonymizer back end
    (backend/app.py, detect_pii_camembert and detect_pii_regex).

    The statistical recogniser and the regular-expression engine are not
    modelled: their outputs are inputs here. */
module Spans {

  /** A detected occurrence: the dict {"entity_type", "start", "end", "text"}. */
  datatype Span = Span(kind: string, start: nat, end: nat, text: string)

  /** One record of the recogniser's aggregated output. */
  datatype NerEntity = NerEntity(group: string, start: nat, end: nat, word: string)

  /** One match object of `re.finditer`: its offsets and its matched text. */
  datatype Match = Match(start: nat, end: nat, text: string)

  /** CAMEMBERT_MAP: the recogniser's labels that are treated as personal data. */
  const CamembertMap: map<string, string> :=
    map["PER" := "PERSON", "ORG" := "ORGANIZATION", "LOC" := "ADDRESS", "DATE" := "DATE"]

  /** The canonical kinds the recogniser adapter can produce. */
  const ModelKinds: set<string> := {"PERSON", "ORGANIZATION", "ADDRESS", "DATE"}

  /** The keys of PII_REGEX, in the table's (insertion) order. */
  const PiiKinds: seq<string> :=
    ["EMAIL", "PHONE_NUMBER", "ZIP_CODE", "CITY", "SIREN", "SIRET",
     "VAT_NUMBER", "IBAN", "REVENUE", "TAX_AMOUNT"]

  predicate Distinct(s: seq<string>)
  {
    forall i, j :: 0 <= i < j < |s| ==> s[i] != s[j]
  }

  // ---------------------------------------------------------------------
  // Recogniser adapter
  // ---------------------------------------------------------------------

  /** What the adapter emits for one record: nothing for an unmapped label. */
  function AdaptOne(e: NerEntity): (r: seq<Span>)
    ensures |r| == (if e.group in CamembertMap then 1 else 0)
    ensures forall x :: x in r ==> x.kind in ModelKinds && x.start == e.start && x.end == e.end && x.text == e.word
  {
    if e.group in CamembertMap then [Span(CamembertMap[e.group], e.start, e.end, e.word)] else []
  }

  /** The adapter's output, as the append loop builds it (by prefix). */
  function Adapted(es: seq<NerEntity>): (r: seq<Span>)
    ensures |r| <= |es|
  {
    if es == [] then [] else Adapted(es[..|es| - 1]) + AdaptOne(es[|es| - 1])
  }

  /** detect_pii_camembert, with the recogniser's output `entities` as input. */
  method DetectPiiCamembert(entities: seq<NerEntity>) returns (results: seq<Span>)
    ensures results == Adapted(entities)
    ensures |results| <= |entities|
    ensures forall x :: x in results ==> x.kind in ModelKinds
  {
    results := [];
    var i := 0;
    while i < |entities|
      invariant 0 <= i <= |entities|
      invariant results == Adapted(entities[..i])
    {
      var e := entities[i];
      if e.group in CamembertMap {
        results := results + [Span(CamembertMap[e.group], e.start, e.end, e.word)];
        assert entities[..i + 1][..i] == entities[..i];
      } else {
        assert entities[..i + 1] == entities[..i] + [e];
        AdaptedDropsUnmapped(entities[..i], e);
      }
      i := i + 1;
    }
    assert entities[..|entities|] == entities;
    AdaptedSpans(entities);
  }

  /** The adapter is a homomorphism: it maps every record on its own, in order. */
  lemma {:induction false} AdaptedConcat(a: seq<NerEntity>, b: seq<NerEntity>)
    ensures Adapted(a + b) == Adapted(a) + Adapted(b)
    decreases |b|
  {
    if b == [] {
      assert a + b == a;
    } else {
      var b' := b[..|b| - 1];
      assert (a + b)[..|a + b| - 1] == a + b';
      assert (a + b)[|a + b| - 1] == b[|b| - 1];
      AdaptedConcat(a, b');
    }
  }

  /** A span is in the adapter's output exactly when some record with a mapped
      label produced it: kind from the table, offsets and word copied. */
  lemma {:induction false} AdaptedSpans(es: seq<NerEntity>)
    ensures |Adapted(es)| <= |es|
    ensures forall x :: x in Adapted(es) <==>
      exists e :: e in es && e.group in CamembertMap && x == Span(CamembertMap[e.group], e.start, e.end, e.word)
    ensures forall x :: x in Adapted(es) ==> x.kind in ModelKinds
  {
    if es != [] {
      var p := es[..|es| - 1];
      AdaptedSpans(p);
      assert es == p + [es[|es| - 1]];
      forall x | x in Adapted(es)
        ensures exists e :: e in es && e.group in CamembertMap && x == Span(CamembertMap[e.group], e.start, e.end, e.word)
      {
        if x in Adapted(p) {
          var e :| e in p && e.group in CamembertMap && x == Span(CamembertMap[e.group], e.start, e.end, e.word);
          assert e in es;
        } else {
          assert x in AdaptOne(es[|es| - 1]);
        }
      }
      forall e | e in es && e.group in CamembertMap
        ensures Span(CamembertMap[e.group], e.start, e.end, e.word) in Adapted(es)
      {
        if e in p {
        } else {
          assert e == es[|es| - 1];
        }
      }
    }
  }

  /** A record whose label is not in the table contributes nothing. */
  lemma AdaptedDropsUnmapped(es: seq<NerEntity>, e: NerEntity)
    requires e.group !in CamembertMap
    ensures Adapted(es + [e]) == Adapted(es)
  {
    assert (es + [e])[..|es + [e]| - 1] == es;
  }

  // ---------------------------------------------------------------------
  // Pattern detector
  // ---------------------------------------------------------------------

  /** The hits of one table entry: its matches in order, tagged with its kind. */
  function Tagged(kind: string, ms: seq<Match>): (r: seq<Span>)
    ensures |r| == |ms|
    ensures forall x :: x in r ==> x.kind == kind
  {
    if ms == [] then [] else Tagged(kind, ms[..|ms| - 1]) + [Span(kind, ms[|ms| - 1].start, ms[|ms| - 1].end, ms[|ms| - 1].text)]
  }

  /** The hits of the entries `kinds`, one entry after the other. `matches(k, text)`
      stands for the list of `re.finditer` matches of the pattern of kind `k`. */
  function RegexHits(kinds: seq<string>, text: string, matches: (string, string) -> seq<Match>): (r: seq<Span>)
    ensures forall x :: x in r ==> x.kind in kinds
  {
    if kinds == [] then []
    else RegexHits(kinds[..|kinds| - 1], text, matches) + Tagged(kinds[|kinds| - 1], matches(kinds[|kinds| - 1], text))
  }

  /** detect_pii_regex: for every table entry, in order, every match, in order. */
  method DetectPiiRegex(text: string, matches: (string, string) -> seq<Match>) returns (hits: seq<Span>)
    ensures hits == RegexHits(PiiKinds, text, matches)
    ensures forall x :: x in hits ==> x.kind in PiiKinds
    ensures forall k :: OfKind(hits, k) == if k in PiiKinds then Tagged(k, matches(k, text)) else []
  {
    hits := [];
    var k := 0;
    while k < |PiiKinds|
      invariant 0 <= k <= |PiiKinds|
      invariant hits == RegexHits(PiiKinds[..k], text, matches)
    {
      var entity := PiiKinds[k];
      var ms := matches(entity, text);
      var j := 0;
      while j < |ms|
        invariant 0 <= j <= |ms|
        invariant hits == RegexHits(PiiKinds[..k], text, matches) + Tagged(entity, ms[..j])
      {
        hits := hits + [Span(entity, ms[j].start, ms[j].end, ms[j].text)];
        assert ms[..j + 1][..j] == ms[..j];
        j := j + 1;
      }
      assert ms[..|ms|] == ms;
      assert PiiKinds[..k + 1][..k] == PiiKinds[..k];
      k := k + 1;
    }
    assert PiiKinds[..|PiiKinds|] == PiiKinds;
    RegexHitsKinds(PiiKinds, text, matches);
    PiiKindsDistinct();
    forall k ensures OfKind(hits, k) == if k in PiiKinds then Tagged(k, matches(k, text)) else [] {
      RegexHitsOfKind(PiiKinds, text, matches, k);
    }
  }

  /** The spans of kind `k` in `s`, in order. */
  function OfKind(s: seq<Span>, k: string): (r: seq<Span>)
    ensures |r| <= |s|
  {
    if s == [] then [] else OfKind(s[..|s| - 1], k) + (if s[|s| - 1].kind == k then [s[|s| - 1]] else [])
  }

  lemma {:induction false} OfKindConcat(a: seq<Span>, b: seq<Span>, k: string)
    ensures OfKind(a + b, k) == OfKind(a, k) + OfKind(b, k)
    decreases |b|
  {
    if b == [] {
      assert a + b == a;
    } else {
      assert (a + b)[..|a + b| - 1] == a + b[..|b| - 1];
      OfKindConcat(a, b[..|b| - 1], k);
    }
  }

  lemma {:induction false} OfKindTagged(kind: string, ms: seq<Match>, k: string)
    ensures OfKind(Tagged(kind, ms), k) == if kind == k then Tagged(kind, ms) else []
  {
    if ms != [] {
      OfKindTagged(kind, ms[..|ms| - 1], k);
      var t := Tagged(kind, ms);
      assert t[..|t| - 1] == Tagged(kind, ms[..|ms| - 1]);
    }
  }

  /** Every hit carries one of the table's kinds and is one of that kind's matches. */
  lemma {:induction false} RegexHitsKinds(kinds: seq<string>, text: string, matches: (string, string) -> seq<Match>)
    ensures forall x :: x in RegexHits(kinds, text, matches) ==>
      x.kind in kinds && Match(x.start, x.end, x.text) in matches(x.kind, text)
  {
    if kinds != [] {
      var p := kinds[..|kinds| - 1];
      var last := kinds[|kinds| - 1];
      RegexHitsKinds(p, text, matches);
      TaggedMembers(last, matches(last, text));
      forall x | x in RegexHits(kinds, text, matches)
        ensures x.kind in kinds && Match(x.start, x.end, x.text) in matches(x.kind, text)
      {
        if x in RegexHits(p, text, matches) {
          assert x.kind in p;
        }
      }
    }
  }

  lemma {:induction false} TaggedMembers(kind: string, ms: seq<Match>)
    ensures forall x :: x in Tagged(kind, ms) ==> x.kind == kind && Match(x.start, x.end, x.text) in ms
  {
    if ms != [] {
      TaggedMembers(kind, ms[..|ms| - 1]);
      forall x | x in Tagged(kind, ms) ensures x.kind == kind && Match(x.start, x.end, x.text) in ms {
        if x in Tagged(kind, ms[..|ms| - 1]) {
          assert Match(x.start, x.end, x.text) in ms[..|ms| - 1];
        }
      }
    }
  }

  /** Grouping: among the hits, those of one table kind are exactly that
      kind's matches, in the engine's order; a kind outside the table has none. */
  lemma {:induction false} RegexHitsOfKind(kinds: seq<string>, text: string, matches: (string, string) -> seq<Match>, k: string)
    requires Distinct(kinds)
    ensures OfKind(RegexHits(kinds, text, matches), k) == if k in kinds then Tagged(k, matches(k, text)) else []
  {
    if kinds != [] {
      var p := kinds[..|kinds| - 1];
      var last := kinds[|kinds| - 1];
      var before, mine := RegexHits(p, text, matches), Tagged(last, matches(last, text));
      DistinctSnoc(kinds);
      RegexHitsOfKind(p, text, matches, k);
      OfKindConcat(before, mine, k);
      OfKindTagged(last, matches(last, text), k);
    }
  }

  /** Dropping the last key keeps the keys distinct, and the last key is not
      among the others. */
  lemma DistinctSnoc(kinds: seq<string>)
    requires kinds != [] && Distinct(kinds)
    ensures Distinct(kinds[..|kinds| - 1]) && kinds[|kinds| - 1] !in kinds[..|kinds| - 1]
    ensures forall k :: k in kinds <==> k in kinds[..|kinds| - 1] || k == kinds[|kinds| - 1]
  {
    var p := kinds[..|kinds| - 1];
    assert kinds == p + [kinds[|kinds| - 1]];
    forall j | 0 <= j < |p| ensures p[j] != kinds[|kinds| - 1] {
      assert kinds[j] == p[j];
    }
  }

  /** The table's kinds are pairwise distinct, so the grouping lemma applies to it. */
  lemma PiiKindsDistinct()
    ensures Distinct(PiiKinds)
  {
  }
}
