/** The substitution and mapping loop of the anonymizer back end
    (backend/app.py, the paragraph loop of `anonymize`): every non-blank
    paragraph is merged, each kept span is replaced in place, in the
    merger's descending order, by a generated value, and the dict
    `mapping` records, per generated value, the encrypted original and
    its kind.

    Fernet encryption is the parameter `encrypt(plaintext, nonce)`;
    the randomness one substitution consumes is `draw(paragraph, span)`. */
module Anonymize {
  import opened Spans
  import opened Merge
  import opened Fake

  /** The randomness one substitution consumes: what fake_value draws, and
      the fresh nonce Fernet uses for the ciphertext. */
  datatype Draw = Draw(faker: FakerDraw, nonce: nat)

  /** The value stored in `mapping`: {"cipher": ..., "entity": ...}. */
  datatype Entry = Entry(cipher: string, entity: string)

  /** A Python dict from generated value to entry: its entries, and its keys
      in insertion order (re-assigning a key keeps its position). */
  datatype Mapping = Mapping(entries: map<string, Entry>, keys: seq<string>)

  /** One row of the exported table: fake, cipher, entity. */
  datatype Row = Row(fake: string, cipher: string, entity: string)

  /** One assignment `mapping[fake] = entry`. */
  datatype Write = Write(fake: string, entry: Entry)

  predicate ValidMapping(m: Mapping)
  {
    && Distinct(m.keys)
    && m.entries.Keys == set k | k in m.keys
  }

  const EmptyMapping: Mapping := Mapping(map[], [])

  // ---------------------------------------------------------------------
  // The dict
  // ---------------------------------------------------------------------

  /** `mapping[k] = v`. */
  function Put(m: Mapping, k: string, v: Entry): (r: Mapping)
    requires ValidMapping(m)
    ensures ValidMapping(r)
    ensures |m.keys| <= |r.keys| && r.keys[..|m.keys|] == m.keys
  {
    if k in m.entries then Mapping(m.entries[k := v], m.keys)
    else Mapping(m.entries[k := v], m.keys + [k])
  }

  /** The dict after the assignments `ws`, in order. */
  function RecordAll(m: Mapping, ws: seq<Write>): (r: Mapping)
    requires ValidMapping(m)
    ensures ValidMapping(r)
    decreases ws
  {
    if ws == [] then m else RecordAll(Put(m, ws[0].fake, ws[0].entry), ws[1..])
  }

  /** No later assignment in `ws` uses the key of assignment `i`. */
  predicate IsLastWrite(ws: seq<Write>, i: nat)
    requires i < |ws|
  {
    forall j :: i < j < |ws| ==> ws[j].fake != ws[i].fake
  }

  /** Some assignment in `ws` writes the key `k`. */
  predicate Wrote(ws: seq<Write>, k: string)
  {
    exists i :: 0 <= i < |ws| && ws[i].fake == k
  }

  lemma WroteCons(ws: seq<Write>, k: string)
    requires ws != []
    ensures Wrote(ws, k) <==> ws[0].fake == k || Wrote(ws[1..], k)
  {
    if Wrote(ws, k) && ws[0].fake != k {
      var i :| 0 <= i < |ws| && ws[i].fake == k;
      assert ws[1..][i - 1].fake == k;
    }
    if Wrote(ws[1..], k) {
      var i :| 0 <= i < |ws[1..]| && ws[1..][i].fake == k;
      assert ws[i + 1].fake == k;
    }
  }

  /** After the assignments, the dict holds a key exactly when it held it
      before or some assignment wrote it. */
  lemma {:induction false} RecordAllKeys(m: Mapping, ws: seq<Write>, k: string)
    requires ValidMapping(m)
    ensures k in RecordAll(m, ws).entries <==> k in m.entries || Wrote(ws, k)
    decreases ws
  {
    if ws != [] {
      var m' := Put(m, ws[0].fake, ws[0].entry);
      RecordAllKeys(m', ws[1..], k);
      WroteCons(ws, k);
      assert k in m'.entries <==> k in m.entries || k == ws[0].fake;
    }
  }

  /** The keys that the assignments `ws` add to a dict already holding
      `seen`: each key not seen before, at its first assignment, in order. */
  function NewKeys(seen: seq<string>, ws: seq<Write>): (r: seq<string>)
    ensures |r| <= |ws|
    ensures forall k :: k in r ==> k !in seen
    decreases ws
  {
    if ws == [] then []
    else if ws[0].fake in seen then NewKeys(seen, ws[1..])
    else [ws[0].fake] + NewKeys(seen + [ws[0].fake], ws[1..])
  }

  /** Insertion order: the keys held before the assignments keep their
      positions, and the new keys follow in the order of their first
      assignment; a re-assigned key does not move. */
  lemma {:induction false} RecordAllKeyOrder(m: Mapping, ws: seq<Write>)
    requires ValidMapping(m)
    ensures RecordAll(m, ws).keys == m.keys + NewKeys(m.keys, ws)
    decreases ws
  {
    if ws == [] {
      assert m.keys + [] == m.keys;
    } else {
      var k := ws[0].fake;
      var m' := Put(m, k, ws[0].entry);
      RecordAllKeyOrder(m', ws[1..]);
      RecordAllCons(m, ws);
      PutKeys(m, k, ws[0].entry);
      NewKeysCons(m.keys, ws);
      if k !in m.keys {
        AppendAssoc(m.keys, k, NewKeys(m.keys + [k], ws[1..]));
      }
    }
  }

  lemma RecordAllCons(m: Mapping, ws: seq<Write>)
    requires ValidMapping(m) && ws != []
    ensures RecordAll(m, ws) == RecordAll(Put(m, ws[0].fake, ws[0].entry), ws[1..])
  {
  }

  lemma NewKeysCons(seen: seq<string>, ws: seq<Write>)
    requires ws != []
    ensures NewKeys(seen, ws) ==
      if ws[0].fake in seen then NewKeys(seen, ws[1..])
      else [ws[0].fake] + NewKeys(seen + [ws[0].fake], ws[1..])
  {
  }

  lemma AppendAssoc(a: seq<string>, k: string, b: seq<string>)
    ensures (a + [k]) + b == a + ([k] + b)
  {
  }

  /** `mapping[k] = v` appends `k` to the key order only when it is new. */
  lemma PutKeys(m: Mapping, k: string, v: Entry)
    requires ValidMapping(m)
    ensures Put(m, k, v).keys == if k in m.keys then m.keys else m.keys + [k]
  {
    assert k in m.entries <==> k in m.keys;
  }

  /** Writing `a`, `b`, then `a` again leaves the keys in the order `a`, `b`:
      the re-assigned key keeps its first position. */
  lemma KeyOrderExample(a: string, b: string, e1: Entry, e2: Entry, e3: Entry)
    requires a != b
    ensures RecordAll(EmptyMapping, [Write(a, e1), Write(b, e2), Write(a, e3)]).keys == [a, b]
  {
    var ws := [Write(a, e1), Write(b, e2), Write(a, e3)];
    var ws1, ws2 := ws[1..], ws[2..];
    assert ws1[0] == Write(b, e2) && ws1[1..] == ws2;
    assert ws2[0] == Write(a, e3) && ws2[1..] == [];
    var m1 := Put(EmptyMapping, a, e1);
    var m2 := Put(m1, b, e2);
    var m3 := Put(m2, a, e3);
    PutKeys(EmptyMapping, a, e1);
    assert m1.keys == [a];
    PutKeys(m1, b, e2);
    assert m2.keys == [a, b];
    PutKeys(m2, a, e3);
    RecordAllCons(EmptyMapping, ws);
    RecordAllCons(m1, ws1);
    RecordAllCons(m2, ws2);
    assert RecordAll(m3, []) == m3;
  }

  /** A key no assignment writes keeps its entry. */
  lemma {:induction false} RecordAllUntouched(m: Mapping, ws: seq<Write>, k: string)
    requires ValidMapping(m)
    requires k in m.entries && forall i :: 0 <= i < |ws| ==> ws[i].fake != k
    ensures k in RecordAll(m, ws).entries && RecordAll(m, ws).entries[k] == m.entries[k]
    decreases ws
  {
    if ws != [] {
      RecordAllUntouched(Put(m, ws[0].fake, ws[0].entry), ws[1..], k);
    }
  }

  /** A written key holds the entry of its LAST assignment: earlier
      assignments with the same generated value are overwritten. */
  lemma {:induction false} RecordAllLastWins(m: Mapping, ws: seq<Write>, i: nat)
    requires ValidMapping(m)
    requires i < |ws| && IsLastWrite(ws, i)
    ensures ws[i].fake in RecordAll(m, ws).entries && RecordAll(m, ws).entries[ws[i].fake] == ws[i].entry
    decreases ws
  {
    var m' := Put(m, ws[0].fake, ws[0].entry);
    if i > 0 {
      assert IsLastWrite(ws[1..], i - 1);
      RecordAllLastWins(m', ws[1..], i - 1);
    } else {
      RecordAllUntouched(m', ws[1..], ws[0].fake);
    }
  }

  lemma {:induction false} DistinctCard(s: seq<string>)
    requires Distinct(s)
    ensures |set x | x in s| == |s|
  {
    if s != [] {
      var t := s[1..];
      assert Distinct(t);
      DistinctCard(t);
      assert (set x | x in s) == {s[0]} + (set x | x in t);
      assert s[0] !in (set x | x in t);
    }
  }

  /** The exported table: one row per key, in the dict's insertion order. */
  function Rows(m: Mapping): (rows: seq<Row>)
    requires ValidMapping(m)
    ensures |rows| == |m.keys| == |m.entries|
    ensures forall i :: 0 <= i < |rows| ==>
      rows[i].fake in m.entries && m.entries[rows[i].fake] == Entry(rows[i].cipher, rows[i].entity)
    ensures forall i, j :: 0 <= i < j < |rows| ==> rows[i].fake != rows[j].fake
    ensures forall i :: 0 <= i < |rows| ==> rows[i].fake == m.keys[i]
  {
    DistinctCard(m.keys);
    assert m.entries.Keys == set x | x in m.keys;
    seq(|m.keys|, i requires 0 <= i < |m.keys| =>
      Row(m.keys[i], m.entries[m.keys[i]].cipher, m.entries[m.keys[i]].entity))
  }

  // ---------------------------------------------------------------------
  // Rewriting one paragraph
  // ---------------------------------------------------------------------

  /** `t[:i]` with Python's clipping. */
  function Before(t: string, i: nat): (r: string)
    ensures r <= t && |r| == if i <= |t| then i else |t|
  {
    if i <= |t| then t[..i] else t
  }

  /** `t[j:]` with Python's clipping. */
  function After(t: string, j: nat): (r: string)
    ensures |r| == (if j <= |t| then |t| - j else 0) && r == t[|t| - |r|..]
  {
    if j <= |t| then t[j..] else []
  }

  /** `new_text[:s["start"]] + fake_val + new_text[s["end"]:]`. */
  function Replace(t: string, s: Span, fake: string): (r: string)
    ensures Before(t, s.start) <= r
    ensures s.start <= s.end <= |t| ==> |r| == |t| - (s.end - s.start) + |fake| && r[s.start..s.start + |fake|] == fake && r[s.start + |fake|..] == t[s.end..]
  {
    Before(t, s.start) + fake + After(t, s.end)
  }

  /** The paragraph text after the loop has replaced `spans[i]` by `fakes[i]`,
      one after the other. */
  function RewriteAll(t: string, spans: seq<Span>, fakes: seq<string>): string
    requires |fakes| == |spans|
    decreases spans
  {
    if spans == [] then t else RewriteAll(Replace(t, spans[0], fakes[0]), spans[1..], fakes[1..])
  }

  /** An independent description of the result for non-overlapping spans in
      descending order: the text below the first span (itself rewritten for
      the other spans), the first span's replacement, then the untouched text
      after the first span. */
  function Spliced(t: string, r: seq<Span>, f: seq<string>): string
    requires |f| == |r| && Chained(r, |t|) && WellFormed(r)
    decreases r
  {
    if r == [] then t
    else
      assert Chained(r[1..], r[0].start) && WellFormed(r[1..]);
      Spliced(t[..r[0].start], r[1..], f[1..]) + f[0] + t[r[0].end..]
  }

  lemma ChainedLower(r: seq<Span>, b: nat, b': nat)
    requires Chained(r, b) && b <= b'
    ensures Chained(r, b')
  {
  }

  /** Chained, well-formed spans all lie below the bound. */
  lemma {:induction false} ChainedWithin(r: seq<Span>, b: nat)
    requires Chained(r, b) && WellFormed(r)
    ensures forall x :: x in r ==> x.start <= x.end <= b
  {
    if r != [] {
      assert Chained(r[1..], r[0].start);
      ChainedWithin(r[1..], r[0].start);
    }
  }

  lemma ReplaceWithin(a: string, b: string, x: Span, y: string)
    requires x.start <= x.end <= |a|
    ensures Replace(a + b, x, y) == Replace(a, x, y) + b
  {
    assert (a + b)[..x.start] == a[..x.start];
    assert (a + b)[x.end..] == a[x.end..] + b;
  }

  /** The prefix below every span is untouched. */
  lemma {:induction false} SplicedKeepsPrefix(t: string, r: seq<Span>, f: seq<string>, m: nat)
    requires |f| == |r| && Chained(r, |t|) && WellFormed(r)
    requires m <= |t| && forall x :: x in r ==> m <= x.start
    ensures |Spliced(t, r, f)| >= m && Spliced(t, r, f)[..m] == t[..m]
    decreases r
  {
    if r != [] {
      SplicedUnfold(t, r, f);
      var t' := t[..r[0].start];
      assert r[0] in r;
      assert forall x :: x in r[1..] ==> x in r;
      SplicedKeepsPrefix(t', r[1..], f[1..], m);
      var a := Spliced(t', r[1..], f[1..]);
      PrefixOfConcat(a, f[0] + t[r[0].end..], m);
      assert Spliced(t, r, f) == a + (f[0] + t[r[0].end..]);
      PrefixOfPrefixString(t, r[0].start, m);
    }
  }

  /** One unfolding of `Spliced`. */
  lemma SplicedUnfold(t: string, r: seq<Span>, f: seq<string>)
    requires |f| == |r| && r != [] && Chained(r, |t|) && WellFormed(r)
    ensures r[0].start <= r[0].end <= |t| && Chained(r[1..], r[0].start) && WellFormed(r[1..])
    ensures Spliced(t, r, f) == Spliced(t[..r[0].start], r[1..], f[1..]) + f[0] + t[r[0].end..]
  {
    assert r[0] in r;
  }

  lemma PrefixOfConcat(a: string, b: string, m: nat)
    requires m <= |a|
    ensures (a + b)[..m] == a[..m]
  {
  }

  lemma PrefixOfPrefixString(t: string, n: nat, m: nat)
    requires m <= n <= |t|
    ensures t[..n][..m] == t[..m]
  {
  }

  /** The generated values for the spans of paragraph `p`, in loop order. */
  function Fakes(spans: seq<Span>, p: nat, draw: (nat, nat) -> Draw): (fakes: seq<string>)
    ensures |fakes| == |spans|
  {
    seq(|spans|, j requires 0 <= j < |spans| => FakeValue(spans[j].kind, spans[j].text, draw(p, j).faker))
  }

  /** The assignments to `mapping` for the spans of paragraph `p`, in loop order. */
  function Writes(spans: seq<Span>, p: nat, draw: (nat, nat) -> Draw, encrypt: (string, nat) -> string): (ws: seq<Write>)
    ensures |ws| == |spans|
  {
    seq(|spans|, j requires 0 <= j < |spans| =>
      Write(FakeValue(spans[j].kind, spans[j].text, draw(p, j).faker),
            Entry(encrypt(spans[j].text, draw(p, j).nonce), spans[j].kind)))
  }

  /** The inner loop of `anonymize` for paragraph number `p`. */
  method SubstituteParagraph(text: string, spans: seq<Span>, p: nat, draw: (nat, nat) -> Draw,
                             encrypt: (string, nat) -> string, mapping0: Mapping)
    returns (newText: string, mapping: Mapping)
    requires ValidMapping(mapping0)
    ensures newText == RewriteAll(text, spans, Fakes(spans, p, draw))
    ensures Chained(spans, |text|) && WellFormed(spans) ==>
      newText == Spliced(text, spans, Fakes(spans, p, draw))
    ensures ValidMapping(mapping)
    ensures mapping == RecordAll(mapping0, Writes(spans, p, draw, encrypt))
  {
    ghost var fakes := Fakes(spans, p, draw);
    ghost var ws := Writes(spans, p, draw, encrypt);
    newText := text;
    mapping := mapping0;
    var i := 0;
    while i < |spans|
      invariant 0 <= i <= |spans|
      invariant ValidMapping(mapping)
      invariant RewriteAll(newText, spans[i..], fakes[i..]) == RewriteAll(text, spans, fakes)
      invariant RecordAll(mapping, ws[i..]) == RecordAll(mapping0, ws)
    {
      var s := spans[i];
      var original := s.text;
      var fakeVal := FakeValue(s.kind, original, draw(p, i).faker);
      var cipher := encrypt(original, draw(p, i).nonce);
      assert fakes[i] == fakeVal && ws[i] == Write(fakeVal, Entry(cipher, s.kind));
      RewriteAllStep(newText, spans, fakes, i);
      RecordAllStep(mapping, ws, i);
      mapping := Put(mapping, fakeVal, Entry(cipher, s.kind));
      newText := Replace(newText, s, fakeVal);
      i := i + 1;
    }
    assert spans[i..] == [] && fakes[i..] == [] && ws[i..] == [];
    if Chained(spans, |text|) && WellFormed(spans) {
      RewriteAllIsSpliced(text, spans, fakes);
    }
  }

  /** One iteration of the replacement loop. */
  lemma RewriteAllStep(t: string, spans: seq<Span>, fakes: seq<string>, i: nat)
    requires |fakes| == |spans| && i < |spans|
    ensures RewriteAll(t, spans[i..], fakes[i..]) ==
      RewriteAll(Replace(t, spans[i], fakes[i]), spans[i + 1..], fakes[i + 1..])
  {
    assert spans[i..][1..] == spans[i + 1..] && fakes[i..][1..] == fakes[i + 1..];
  }

  /** One iteration of the mapping assignments. */
  lemma RecordAllStep(m: Mapping, ws: seq<Write>, i: nat)
    requires ValidMapping(m) && i < |ws|
    ensures RecordAll(m, ws[i..]) == RecordAll(Put(m, ws[i].fake, ws[i].entry), ws[i + 1..])
  {
    assert ws[i..][1..] == ws[i + 1..];
  }

  // ---------------------------------------------------------------------
  // Properties of the rewritten paragraph
  // ---------------------------------------------------------------------

  function Width(r: seq<Span>): int
  {
    if r == [] then 0 else (r[0].end - r[0].start) + Width(r[1..])
  }

  function TotalLength(f: seq<string>): nat
  {
    if f == [] then 0 else |f[0]| + TotalLength(f[1..])
  }

  /** The rewritten length is the original length, minus the replaced widths,
      plus the lengths of the replacements. */
  lemma {:induction false} SplicedLength(t: string, r: seq<Span>, f: seq<string>)
    requires |f| == |r| && Chained(r, |t|) && WellFormed(r)
    ensures |Spliced(t, r, f)| == |t| - Width(r) + TotalLength(f)
    decreases r
  {
    if r != [] {
      var t' := t[..r[0].start];
      assert Chained(r[1..], |t'|) && WellFormed(r[1..]);
      SplicedLength(t', r[1..], f[1..]);
    }
  }

  /** Replacing every span by its own text gives the paragraph back: nothing
      outside the spans moves or changes. */
  lemma {:induction false} SplicedIdentity(t: string, r: seq<Span>, f: seq<string>)
    requires |f| == |r| && Chained(r, |t|) && WellFormed(r)
    requires forall i :: 0 <= i < |r| ==> r[i].start <= r[i].end <= |t| && f[i] == t[r[i].start..r[i].end]
    ensures Spliced(t, r, f) == t
    decreases r
  {
    if r != [] {
      var t' := t[..r[0].start];
      assert Chained(r[1..], |t'|) && WellFormed(r[1..]);
      ChainedWithin(r[1..], |t'|);
      forall i | 0 <= i < |r[1..]|
        ensures r[1..][i].start <= r[1..][i].end <= |t'| && f[1..][i] == t'[r[1..][i].start..r[1..][i].end]
      {
        var x := r[i + 1];
        assert r[1..][i] == x && f[1..][i] == f[i + 1];
        assert x in r[1..];
        assert x.end <= |t'|;
        assert f[i + 1] == t[x.start..x.end];
        SliceOfPrefix(t, r[0].start, x.start, x.end);
      }
      SplicedIdentity(t', r[1..], f[1..]);
      assert t == t' + t[r[0].start..r[0].end] + t[r[0].end..];
    }
  }

  lemma SliceOfPrefix(t: string, n: nat, a: nat, b: nat)
    requires a <= b <= n <= |t|
    ensures t[..n][a..b] == t[a..b]
  {
  }

  /** Position `pos` lies inside one of the spans. */
  predicate Covered(r: seq<Span>, pos: nat)
  {
    exists i :: 0 <= i < |r| && r[i].start <= pos < r[i].end
  }

  /** The result depends on the paragraph only through the characters outside
      the spans: two paragraphs that agree there are rewritten alike. */
  lemma {:induction false} SplicedOutside(t: string, t': string, r: seq<Span>, f: seq<string>)
    requires |f| == |r| && Chained(r, |t|) && WellFormed(r) && |t'| == |t|
    requires forall pos :: 0 <= pos < |t| && !Covered(r, pos) ==> t[pos] == t'[pos]
    ensures Spliced(t, r, f) == Spliced(t', r, f)
    decreases r
  {
    if r != [] {
      var s0, e0 := r[0].start, r[0].end;
      assert Chained(r[1..], s0) && WellFormed(r[1..]);
      ChainedWithin(r[1..], s0);
      forall pos | 0 <= pos < s0 && !Covered(r[1..], pos) ensures t[..s0][pos] == t'[..s0][pos] {
        assert !Covered(r, pos);
      }
      SplicedOutside(t[..s0], t'[..s0], r[1..], f[1..]);
      forall pos | e0 <= pos < |t| ensures t[pos] == t'[pos] {
        assert !Covered(r, pos);
      }
      assert t[e0..] == t'[e0..];
    }
  }

  // ---------------------------------------------------------------------
  // The whole document
  // ---------------------------------------------------------------------

  /** Python's `str.isspace` for one character. */
  predicate IsSpace(c: char): (b: bool)
    ensures c == ' ' || c == '\t' || c == '\n' || c == '\r' ==> b
    ensures IsDigit(c) || 'a' <= c <= 'z' || 'A' <= c <= 'Z' ==> !b
  {
    var code := c as int;
    code in {9, 10, 11, 12, 13, 28, 29, 30, 31, 32, 133, 160, 5760, 8232, 8233, 8239, 8287, 12288}
    || 8192 <= code <= 8202
  }

  /** `not p.text.strip()`: the paragraph is empty or whitespace only. */
  predicate IsBlank(t: string): (b: bool)
    ensures t == [] ==> b
    ensures b ==> forall c :: c in t ==> !IsDigit(c)
  {
    forall i :: 0 <= i < |t| ==> IsSpace(t[i])
  }

  /** What merge_spans returns for paragraph text `t`. */
  function MergedOf(t: string, ner: string -> seq<NerEntity>, matches: (string, string) -> seq<Match>): (r: seq<Span>)
    ensures Chained(r, |t|) && SortedDesc(r)
    ensures forall x :: x in r ==> x in Adapted(ner(t)) + RegexHits(PiiKinds, t, matches)
    ensures forall x :: x in r ==> x.kind in HandledKinds
  {
    MergedShape(Adapted(ner(t)), RegexHits(PiiKinds, t, matches), |t|);
    AdaptedSpans(ner(t));
    Sweep(SortByStartDesc(Adapted(ner(t)) + RegexHits(PiiKinds, t, matches)), |t|)
  }

  /** The new text of paragraph number `p`. */
  function ParagraphOut(t: string, p: nat, ner: string -> seq<NerEntity>, matches: (string, string) -> seq<Match>,
                        draw: (nat, nat) -> Draw): (r: string)
    ensures IsBlank(t) || MergedOf(t, ner, matches) == [] ==> r == t
  {
    if IsBlank(t) then t
    else
      var spans := MergedOf(t, ner, matches);
      RewriteAll(t, spans, Fakes(spans, p, draw))
  }

  /** The assignments to `mapping` made for paragraph number `p`. */
  function ParagraphWrites(t: string, p: nat, ner: string -> seq<NerEntity>, matches: (string, string) -> seq<Match>,
                           draw: (nat, nat) -> Draw, encrypt: (string, nat) -> string): (r: seq<Write>)
    ensures |r| == if IsBlank(t) then 0 else |MergedOf(t, ner, matches)|
    ensures forall w :: w in r ==> w.entry.entity in HandledKinds
  {
    if IsBlank(t) then [] else Writes(MergedOf(t, ner, matches), p, draw, encrypt)
  }

  /** All assignments to `mapping` for the paragraphs `ps`, in order. */
  function DocWrites(ps: seq<string>, ner: string -> seq<NerEntity>, matches: (string, string) -> seq<Match>,
                     draw: (nat, nat) -> Draw, encrypt: (string, nat) -> string): (r: seq<Write>)
    ensures forall w :: w in r ==> w.entry.entity in HandledKinds
  {
    if ps == [] then []
    else
      var n := |ps| - 1;
      DocWrites(ps[..n], ner, matches, draw, encrypt)
        + ParagraphWrites(ps[n], n, ner, matches, draw, encrypt)
  }

  /** The new texts of the paragraphs `ps`, in order. */
  function Outs(ps: seq<string>, ner: string -> seq<NerEntity>, matches: (string, string) -> seq<Match>,
                draw: (nat, nat) -> Draw): (r: seq<string>)
    ensures |r| == |ps|
  {
    if ps == [] then [] else Outs(ps[..|ps| - 1], ner, matches, draw) + [ParagraphOut(ps[|ps| - 1], |ps| - 1, ner, matches, draw)]
  }

  lemma OutsStep(ps: seq<string>, i: nat, ner: string -> seq<NerEntity>, matches: (string, string) -> seq<Match>,
                 draw: (nat, nat) -> Draw)
    requires i < |ps|
    ensures Outs(ps[..i + 1], ner, matches, draw) == Outs(ps[..i], ner, matches, draw) + [ParagraphOut(ps[i], i, ner, matches, draw)]
  {
    assert ps[..i + 1][..i] == ps[..i];
  }

  /** Paragraph `i` of the output is paragraph `i` rewritten. */
  lemma {:induction false} OutsIndex(ps: seq<string>, i: nat, ner: string -> seq<NerEntity>,
                                     matches: (string, string) -> seq<Match>, draw: (nat, nat) -> Draw)
    requires i < |ps|
    ensures Outs(ps, ner, matches, draw)[i] == ParagraphOut(ps[i], i, ner, matches, draw)
    decreases |ps|
  {
    var n := |ps| - 1;
    var pre := Outs(ps[..n], ner, matches, draw);
    var last := ParagraphOut(ps[n], n, ner, matches, draw);
    SnocAt(pre, last, i);
    if i < n {
      OutsIndex(ps[..n], i, ner, matches, draw);
      assert ps[..n][i] == ps[i];
    }
  }

  lemma SnocAt(s: seq<string>, x: string, i: nat)
    requires i <= |s|
    ensures (s + [x])[i] == if i < |s| then s[i] else x
  {
  }

  /** Every paragraph of the output is the paragraph rewritten; a blank one
      is unchanged. */
  lemma OutsAt(ps: seq<string>, ner: string -> seq<NerEntity>, matches: (string, string) -> seq<Match>,
               draw: (nat, nat) -> Draw)
    ensures forall i :: 0 <= i < |ps| ==> Outs(ps, ner, matches, draw)[i] == ParagraphOut(ps[i], i, ner, matches, draw)
    ensures forall i :: 0 <= i < |ps| && IsBlank(ps[i]) ==> Outs(ps, ner, matches, draw)[i] == ps[i]
  {
    forall i | 0 <= i < |ps| ensures Outs(ps, ner, matches, draw)[i] == ParagraphOut(ps[i], i, ner, matches, draw) {
      OutsIndex(ps, i, ner, matches, draw);
    }
  }

  /** One more paragraph adds its own assignments after the earlier ones. */
  lemma DocWritesStep(ps: seq<string>, i: nat, ner: string -> seq<NerEntity>, matches: (string, string) -> seq<Match>,
                      draw: (nat, nat) -> Draw, encrypt: (string, nat) -> string)
    requires i < |ps|
    ensures DocWrites(ps[..i + 1], ner, matches, draw, encrypt) ==
      DocWrites(ps[..i], ner, matches, draw, encrypt)
        + ParagraphWrites(ps[i], i, ner, matches, draw, encrypt)
  {
    assert ps[..i + 1][..i] == ps[..i];
  }

  lemma {:induction false} RecordAllConcat(m: Mapping, a: seq<Write>, b: seq<Write>)
    requires ValidMapping(m)
    ensures RecordAll(m, a + b) == RecordAll(RecordAll(m, a), b)
    decreases a
  {
    if a != [] {
      assert (a + b)[1..] == a[1..] + b;
      RecordAllConcat(Put(m, a[0].fake, a[0].entry), a[1..], b);
    } else {
      assert a + b == b;
    }
  }

  /** One pass of the paragraph loop: a blank paragraph is left as it is and
      adds nothing to the dict; any other is merged, rewritten and recorded. */
  method AnonymizeParagraph(text: string, p: nat, ner: string -> seq<NerEntity>,
                            matches: (string, string) -> seq<Match>,
                            draw: (nat, nat) -> Draw, encrypt: (string, nat) -> string, mapping0: Mapping)
    returns (newText: string, mapping: Mapping)
    requires ValidMapping(mapping0)
    ensures newText == ParagraphOut(text, p, ner, matches, draw)
    ensures IsBlank(text) ==> newText == text && mapping == mapping0
    ensures ValidMapping(mapping)
    ensures mapping == RecordAll(mapping0, ParagraphWrites(text, p, ner, matches, draw, encrypt))
  {
    newText, mapping := text, mapping0;
    if !IsBlank(text) {
      var spans := MergeSpans(text, ner, matches);
      newText, mapping := SubstituteParagraph(text, spans, p, draw, encrypt, mapping0);
    }
  }

  /** The paragraph loop of `anonymize`: blank paragraphs are skipped, every
      other one is merged and rewritten, and one dict collects the entries of
      the whole document. */
  method AnonymizeParagraphs(paragraphs: seq<string>, ner: string -> seq<NerEntity>,
                             matches: (string, string) -> seq<Match>,
                             draw: (nat, nat) -> Draw, encrypt: (string, nat) -> string)
    returns (out: seq<string>, mapping: Mapping)
    ensures |out| == |paragraphs|
    ensures forall i :: 0 <= i < |paragraphs| ==> out[i] == ParagraphOut(paragraphs[i], i, ner, matches, draw)
    ensures forall i :: 0 <= i < |paragraphs| && IsBlank(paragraphs[i]) ==> out[i] == paragraphs[i]
    ensures ValidMapping(mapping)
    ensures mapping == RecordAll(EmptyMapping, DocWrites(paragraphs, ner, matches, draw, encrypt))
  {
    out := [];
    mapping := EmptyMapping;
    var i := 0;
    while i < |paragraphs|
      invariant 0 <= i <= |paragraphs|
      invariant out == Outs(paragraphs[..i], ner, matches, draw)
      invariant ValidMapping(mapping)
      invariant mapping == RecordAll(EmptyMapping, DocWrites(paragraphs[..i], ner, matches, draw, encrypt))
    {
      DocWritesStep(paragraphs, i, ner, matches, draw, encrypt);
      OutsStep(paragraphs, i, ner, matches, draw);
      ghost var before := DocWrites(paragraphs[..i], ner, matches, draw, encrypt);
      RecordAllConcat(EmptyMapping, before, ParagraphWrites(paragraphs[i], i, ner, matches, draw, encrypt));
      var newText;
      newText, mapping := AnonymizeParagraph(paragraphs[i], i, ner, matches, draw, encrypt, mapping);
      out := out + [newText];
      i := i + 1;
    }
    assert paragraphs[..i] == paragraphs;
    OutsAt(paragraphs, ner, matches, draw);
  }

  /** What the detectors report has start <= end. */
  predicate DetectorsWellFormed(t: string, ner: string -> seq<NerEntity>, matches: (string, string) -> seq<Match>)
  {
    && (forall e :: e in ner(t) ==> e.start <= e.end)
    && (forall k, m :: k in PiiKinds && m in matches(k, t) ==> m.start <= m.end)
  }

  /** When the detectors report well-formed offsets, the merged spans of a
      paragraph are non-overlapping, descending and inside the text, so the
      paragraph's new text is the spliced description and its length is the
      length formula. */
  lemma ParagraphRewrite(t: string, p: nat, ner: string -> seq<NerEntity>, matches: (string, string) -> seq<Match>,
                         draw: (nat, nat) -> Draw)
    requires DetectorsWellFormed(t, ner, matches) && !IsBlank(t)
    ensures var spans := MergedOf(t, ner, matches);
      && Chained(spans, |t|) && WellFormed(spans)
      && (forall x :: x in spans ==> x.start <= x.end <= |t|)
      && ParagraphOut(t, p, ner, matches, draw) == Spliced(t, spans, Fakes(spans, p, draw))
      && |ParagraphOut(t, p, ner, matches, draw)| == |t| - Width(spans) + TotalLength(Fakes(spans, p, draw))
  {
    var cam, reg := Adapted(ner(t)), RegexHits(PiiKinds, t, matches);
    AdaptedSpans(ner(t));
    RegexHitsKinds(PiiKinds, t, matches);
    var sorted := SortByStartDesc(cam + reg);
    SortByStartDescCorrect(cam + reg);
    forall x | x in sorted ensures x.start <= x.end {
      assert x in multiset(sorted);
      assert x in cam + reg;
      if x in cam {
        var e :| e in ner(t) && e.group in CamembertMap && x == Span(CamembertMap[e.group], e.start, e.end, e.word);
      } else {
        assert x in reg;
        assert Match(x.start, x.end, x.text) in matches(x.kind, t);
      }
    }
    var spans := MergedOf(t, ner, matches);
    SweepChained(sorted, |t|);
    SweepWithinBound(sorted, |t|);
    var fakes := Fakes(spans, p, draw);
    RewriteAllIsSpliced(t, spans, fakes);
    SplicedLength(t, spans, fakes);
  }

  lemma {:induction false} RewriteAllFrame(a: string, b: string, r: seq<Span>, f: seq<string>)
    requires |f| == |r| && Chained(r, |a|) && WellFormed(r)
    ensures RewriteAll(a + b, r, f) == RewriteAll(a, r, f) + b
    decreases r
  {
    if r != [] {
      ChainedWithin(r, |a|);
      ReplaceWithin(a, b, r[0], f[0]);
      var a' := Replace(a, r[0], f[0]);
      assert Chained(r[1..], r[0].start) && WellFormed(r[1..]);
      ChainedLower(r[1..], r[0].start, |a'|);
      RewriteAllFrame(a', b, r[1..], f[1..]);
    }
  }

  /** For non-overlapping descending spans inside the text, the in-place loop
      computes the spliced description. */
  lemma {:induction false} RewriteAllIsSpliced(t: string, r: seq<Span>, f: seq<string>)
    requires |f| == |r| && Chained(r, |t|) && WellFormed(r)
    ensures RewriteAll(t, r, f) == Spliced(t, r, f)
    decreases r
  {
    if r != [] {
      var s0, e0 := r[0].start, r[0].end;
      var t' := t[..s0];
      assert Chained(r[1..], |t'|) && WellFormed(r[1..]);
      assert Replace(t, r[0], f[0]) == t' + (f[0] + t[e0..]);
      RewriteAllFrame(t', f[0] + t[e0..], r[1..], f[1..]);
      RewriteAllIsSpliced(t', r[1..], f[1..]);
    }
  }
}
