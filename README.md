# RGPD fiscal anonymizer: the detection, merge and substitution core

This project models the core of the anonymizer back end (`backend/app.py`).
The back end replaces the personal data in a French tax note (DOCX) with
generated look-alike values. It also keeps an encrypted dict, from each
generated value to its original, so the document can be re-identified later.

The model covers four parts:

- **Detector adapters** (module `Spans`, `spans.dfy`).
  - `detect_pii_camembert` keeps the recogniser records whose label is in
    `CAMEMBERT_MAP` and renames that label.
  - `detect_pii_regex` emits, for each entry of `PII_REGEX` in table order,
    every match of that entry's pattern, in match order.
  - The recogniser's output and the pattern engine are inputs: `ner(text)`
    and `matches(kind, text)`.
- **Span merger** (module `Merge`, `merge.dfy`). `merge_spans` does four
  things:
  - it concatenates the recogniser spans and the pattern spans, recogniser
    spans first;
  - it sorts them by descending start, with Python's stable sort, so spans
    with equal starts keep their concatenation order;
  - it sweeps them greedily with a boundary `last_start` that starts at
    `len(text)`;
  - it keeps a span when its end is at most the boundary, and the boundary
    then drops to that span's start.
- **Generated values** (module `Fake`, `fake.dfy`). `fake_value` is a case
  split on the kind. The Faker draws, the uuid and today's year are one
  record of inputs, `FakerDraw`. The date, thousands-separator and
  uuid-prefix formatting is written out.
- **Substitution loop** (module `Anonymize`, `anonymize.dfy`). This is the
  paragraph loop of the `anonymize` route:
  - a blank paragraph is skipped;
  - every kept span is replaced in place, in the merger's order, by
    `new_text[:start] + fake + new_text[end:]`, with Python's clipping of
    slices;
  - the dict `mapping[fake] = {cipher, entity}` is updated for every span.
  - The dict is modelled with its insertion order. Re-assigning a key keeps
    its position, as Python dicts do. The exported table is one row per key,
    in that order.

Fernet encryption is the parameter `encrypt(plaintext, nonce)`. The
randomness that the substitution of span `j` of paragraph `p` consumes is
`draw(p, j)`.

The model states these behaviours of the code outright:

- The recogniser spans come first in the concatenation, ahead of the pattern
  spans. So among spans with an equal start, the recogniser's span is
  examined first, and it is kept when it fits under the boundary left by the
  higher spans (`MergeTieBreak`, `TieBreakExample`). When it does not fit, a
  later span with the same start and an earlier end can still be kept: with
  ORGANIZATION 3..9 from the recogniser and CITY 3..8 and ZIP_CODE 8..12 from
  the patterns, the merger keeps ZIP_CODE and CITY (`TieBreakFitExample`).
- Every kind the two detectors produce has a branch of its own in
  `fake_value`, so the bracketed fallback is reached only by a direct call
  with another kind (`MergedOf`).
- The merger does not check that a span's text equals the slice of the
  paragraph at its offsets. It does not drop zero-width spans either.
- `merge_spans` returns its spans in descending start order. They are not
  re-sorted into ascending order.
- The VAT value is `"FR" + str(random_number(digits=11))`. It is not
  zero-padded, so it can have fewer than eleven digits (`VatShape`,
  `VatNotPadded`). The detector's VAT pattern would not match such a value.

## Model

| member | source | states |
|---|---|---|
| Spans.AdaptOne | backend/app.py:153-162 | one record gives one span when its label is in CAMEMBERT_MAP and none otherwise; the span has a mapped kind and the record's offsets and word |
| Spans.Adapted | backend/app.py:152-162 | the adapter emits at most one span per record |
| Spans.DetectPiiCamembert | backend/app.py:148-164 | the loop's output is the adapter applied record by record; it is no longer than the input, and every kind is one of PERSON, ORGANIZATION, ADDRESS, DATE |
| Spans.AdaptedSpans | backend/app.py:63-68 | a span is in the output iff some record with a mapped label produced it, with the kind looked up in CAMEMBERT_MAP and the offsets and word copied; every kind is a mapped one |
| Spans.AdaptedConcat | backend/app.py:152-162 | the adapter treats each record on its own, in order: adapting `a + b` is adapting `a`, then adapting `b` |
| Spans.AdaptedDropsUnmapped | backend/app.py:153-155 | a record whose label is not in the table adds nothing |
| Spans.Tagged | backend/app.py:172-178 | one hit per match of one pattern, each carrying that pattern's kind |
| Spans.RegexHits | backend/app.py:171-178 | every hit carries one of the table kinds it was built from |
| Spans.DetectPiiRegex | backend/app.py:169-179 | the nested loops produce the hits of every table entry in table order, and each entry's matches in match order; every kind is a table key; the hits of a table kind are exactly its matches, in order, and any other kind has none |
| Spans.RegexHitsKinds | backend/app.py:171-178 | every hit carries a table kind, and its offsets and text are one of that kind's matches |
| Spans.TaggedMembers | backend/app.py:173-178 | each hit of one pattern carries that pattern's kind and the offsets and text of one of its matches |
| Spans.RegexHitsOfKind | backend/app.py:171-178 | grouping: the hits of a kind are exactly that kind's matches in order; a kind outside the table has no hits |
| Spans.OfKind | backend/app.py:171-178 | filtering by kind keeps at most the input's spans |
| Spans.OfKindConcat | backend/app.py:171-178 | filtering by kind distributes over concatenation |
| Spans.OfKindTagged | backend/app.py:172-178 | filtering one pattern's hits keeps all of them or none |
| Spans.PiiKindsDistinct | backend/app.py:73-84 | the table's keys are pairwise distinct |
| Merge.InsertDesc | backend/app.py:186 | one insertion step of the stable descending sort makes the list one longer and places the span in it (that the other spans are kept is `InsertDescMembers`) |
| Merge.SortByStartDesc | backend/app.py:186 | the sort keeps the number of spans |
| Merge.Sweep | backend/app.py:188-196 | the greedy loop keeps at most its input, and the first kept span ends within the boundary |
| Merge.Boundary | backend/app.py:189-194 | `last_start` after the loop is its initial value or the start of one of the spans |
| Merge.MergeSpans | backend/app.py:184-196 | the result is the sweep of the stable descending sort of recogniser spans then pattern spans, starting at `len(text)`; it is chained (no overlap, and the first kept span ends within the text; all do when the detectors report start <= end, see `SweepWithinBound` and `ParagraphRewrite`), descending, and made only of input spans |
| Merge.SweepLoop | backend/app.py:188-196 | the loop with its running `last_start` computes the sweep |
| Merge.MergedShape | backend/app.py:185-196 | the merged list does not overlap, descends, is a subsequence of the sorted input, and holds only input spans |
| Merge.SortByStartDescCorrect | backend/app.py:186 | the sort's output is in descending start order and is a permutation of its input |
| Merge.SortByStartDescStable | backend/app.py:186 | stability: the spans with a given start keep their input order |
| Merge.InsertDescMembers | backend/app.py:186 | one insertion step adds exactly the inserted span |
| Merge.InsertDescSorted | backend/app.py:186 | one insertion step keeps a descending list descending |
| Merge.InsertDescAtStart | backend/app.py:186 | one insertion step puts the new span ahead of the spans with its own start |
| Merge.AtStartConcat | backend/app.py:185-186 | selecting a start distributes over concatenation |
| Merge.FilterMembers | backend/app.py:186-191 | the spans selected above, at or below a start are input spans with such a start |
| Merge.SortedDescSplit | backend/app.py:186-191 | a descending list is its spans above `k`, then at `k`, then below `k` |
| Merge.SweepChained | backend/app.py:189-194 | non-overlap: each kept span ends at or before the start of the span kept before it, and the first ends at or before `len(text)` |
| Merge.SweepSubsequence | backend/app.py:191-194 | the kept spans are the input's spans, some dropped, in input order |
| Merge.SubsequenceMembers | backend/app.py:191-194 | a subsequence holds only input spans |
| Merge.SubsequenceSorted | backend/app.py:186-194 | a subsequence of a descending list is descending |
| Merge.SweepWithinBound | backend/app.py:189-194 | bounds: when every span has start <= end, each kept span lies within `[0, len(text)]`; spans running past the text are dropped |
| Merge.SweepSplit | backend/app.py:191-194 | greedy rule: sweeping `p + q` is sweeping `p`, then sweeping `q` from the boundary `p` leaves |
| Merge.SweepDecision | backend/app.py:192-194 | a span is kept iff its end is at most the boundary left by the spans before it, and keeping it moves the boundary to its start |
| Merge.FirstFit | backend/app.py:192-194 | at most one span of a group is picked |
| Merge.SweepNoneFits | backend/app.py:192 | spans that all end beyond the boundary are all dropped |
| Merge.SweepGroup | backend/app.py:191-194 | among spans with one start and non-zero width, the sweep keeps exactly the first that fits |
| Merge.SweepMembers | backend/app.py:191-194 | the sweep keeps only input spans |
| Merge.MergeTieBreak | backend/app.py:185-194 | tie-break: of the spans starting at `k`, the merger keeps exactly the first, in recogniser-then-pattern order, that fits under the boundary left by the higher spans |
| Merge.TieBreakExample | backend/app.py:185-194 | "Lille" reported as ORGANIZATION by the recogniser and as CITY by the pattern is kept once, as ORGANIZATION |
| Merge.TieBreakFitExample | backend/app.py:185-194 | a recogniser span that does not fit under the boundary loses to a pattern span with the same start that does |
| Fake.FakeValue | backend/app.py:89-143 | AGE starts with a minus sign iff the drawn birth year is after today's year; DATE has at least seven characters; VAT_NUMBER is "FR" and digits; an unhandled kind is bracketed by `<` and `>` |
| Fake.NatToString | backend/app.py:117 | `str(n)`: at least one digit, only digits, no leading zero |
| Fake.IntToString | backend/app.py:105 | `str(i)`: a minus sign exactly for a negative `i`, then digits |
| Fake.Pad2 | backend/app.py:101 | `%d` and `%m`: at least two digits, exactly two below 100 |
| Fake.Pad3 | backend/app.py:138 | a thousands group: exactly three digits |
| Fake.WithCommas | backend/app.py:138 | `{n:,}` starts and ends with a digit |
| Fake.ReplaceChar | backend/app.py:120 | `.replace(c, repl)`: every character not from `repl` is a character of the input other than `c`; a one-character `repl` keeps the length |
| Fake.Take | backend/app.py:141 | `s[:n]` is a prefix of `s`, of length `n` or all of a shorter `s` |
| Fake.FormatDate | backend/app.py:101 | `%d/%m/%Y` has at least seven characters, with slashes at positions 2 and 5 for a day and month below 100 |
| Fake.NatToStringRoundTrip | backend/app.py:117 | reading `str(n)` back as a decimal gives `n` |
| Fake.NatToStringShort | backend/app.py:117 | `str(n)` has at most `m` digits when `n < 10^m` |
| Fake.NatToStringLength | backend/app.py:117 | `str(n)` has exactly `m` digits when `10^(m-1) <= n < 10^m` |
| Fake.NatToStringAppend | backend/app.py:117 | for `n >= 1`, the decimal form of `10 * n + d` is that of `n` followed by the digit `d` |
| Fake.NatToStringThousands | backend/app.py:138 | for `n >= 1`, the decimal form of `1000 * n + g` is that of `n` followed by `g` padded to three digits |
| Fake.WithCommasDigits | backend/app.py:138 | removing the commas of `{n:,}` gives `str(n)` |
| Fake.WithCommasStep | backend/app.py:138 | for `q >= 1`, dropping the commas of `{q:,}` followed by a comma and three padded digits `g` gives `str(1000 * q + g)` |
| Fake.WithCommasNoSpace | backend/app.py:138 | `{n:,}` contains no space |
| Fake.ReplaceRemoves | backend/app.py:120-138 | after `.replace(c, s)`, with `c` not in `s`, no `c` is left |
| Fake.ReplaceThenRemove | backend/app.py:138 | replacing `c` by `e` and then dropping `e` is the same as dropping `c`, when the text had no `e` (commas and spaces in the amount) |
| Fake.ReplaceAbsent | backend/app.py:120 | `.replace` of an absent character changes nothing |
| Fake.ReplaceConcat | backend/app.py:120-138 | `.replace` distributes over concatenation |
| Fake.RemoveConcat | backend/app.py:138 | dropping a character distributes over concatenation |
| Fake.RemoveAbsent | backend/app.py:138 | dropping an absent character changes nothing |
| Fake.Pad2Value | backend/app.py:101 | `%d` and `%m` give two digits that read back as the number |
| Fake.FallbackShape | backend/app.py:140-141 | an unhandled kind gives `<KIND_xxxxxx>`, where `xxxxxx` is the first six lower-case hex digits of the uuid |
| Fake.VatShape | backend/app.py:116-117 | VAT_NUMBER gives "FR" followed by the digits of the drawn number, at most thirteen characters for an eleven-digit draw |
| Fake.VatNotPadded | backend/app.py:117 | a small draw gives a short value: 42 gives "FR42" |
| Fake.AmountShape | backend/app.py:137-138 | REVENUE, TAX_AMOUNT and OTHER_INCOME give a value ending in " €" with no comma, whose digits without their space separators are the drawn amount |
| Fake.DateShape | backend/app.py:99-101 | DATE gives `DD/MM/YYYY`, whose fields read back as the drawn birth date |
| Fake.AddressShape | backend/app.py:119-120 | ADDRESS gives the drawn address on one line; an address that is already on one line is unchanged |
| Fake.OriginalUnused | backend/app.py:89-143 | the generated value does not depend on the original text |
| Anonymize.Put | backend/app.py:233-236 | `mapping[k] = v` keeps the dict well formed and keeps the earlier keys in their order |
| Anonymize.PutKeys | backend/app.py:233-236 | `mapping[k] = v` appends `k` to the insertion order only when it is a new key |
| Anonymize.RecordAll | backend/app.py:229-236 | a sequence of assignments keeps the dict well formed |
| Anonymize.RecordAllKeys | backend/app.py:233-236 | after the assignments, the dict holds a key iff it held it before or some assignment wrote it |
| Anonymize.NewKeys | backend/app.py:233-236 | the keys the assignments add are not among the keys held before, and there are at most as many as assignments |
| Anonymize.RecordAllKeyOrder | backend/app.py:233-253 | insertion order: the keys held before keep their positions, and the new keys follow in the order of their first assignment; a re-assigned key does not move |
| Anonymize.KeyOrderExample | backend/app.py:233-253 | assigning `a`, `b`, then `a` again leaves the keys in the order `a`, `b` |
| Anonymize.RecordAllUntouched | backend/app.py:233-236 | a key that no assignment writes keeps its entry |
| Anonymize.RecordAllLastWins | backend/app.py:233-236 | last write wins: a written key holds the entry of its last assignment, so a repeated generated value loses the earlier cipher |
| Anonymize.RecordAllConcat | backend/app.py:224-236 | the assignments of two paragraphs, one after the other, are the assignments of their concatenation |
| Anonymize.Rows | backend/app.py:251-253 | the exported table has one row per dict entry, row `i` for the `i`-th key in insertion order; each row is that entry's fake, cipher and entity; no fake appears twice |
| Anonymize.Before | backend/app.py:238 | `new_text[:start]` is a prefix of the text, clipped to its length |
| Anonymize.After | backend/app.py:238 | `new_text[end:]` is a suffix of the text, empty when `end` is past it |
| Anonymize.Replace | backend/app.py:238 | one replacement keeps the text before the span; for a span inside the text, the fake sits at the span's start, the text after the span follows it, and the length changes by the fake's length minus the span's width |
| Anonymize.Fakes | backend/app.py:230 | one generated value per span |
| Anonymize.Writes | backend/app.py:229-236 | one assignment per span |
| Anonymize.SubstituteParagraph | backend/app.py:228-238 | the inner loop's text is the spans replaced one after the other; for chained, well-formed spans it is the spliced description; the dict is the old dict after the assignments, in span order |
| Anonymize.RewriteAllIsSpliced | backend/app.py:228-238 | for non-overlapping descending spans, replacing in place, in order, gives the text below the first span rewritten, its fake, then the untouched text after it |
| Anonymize.RewriteAllFrame | backend/app.py:238 | replacing spans inside `a` leaves a text `b` appended after `a` untouched |
| Anonymize.ChainedWithin | backend/app.py:192-194 | chained, well-formed spans lie below their bound |
| Anonymize.SplicedKeepsPrefix | backend/app.py:238 | the text before every span is unchanged |
| Anonymize.SplicedLength | backend/app.py:238 | the new length is the old length, minus the replaced widths, plus the lengths of the fakes |
| Anonymize.SplicedIdentity | backend/app.py:238 | replacing every span by its own slice gives the paragraph back |
| Anonymize.SplicedOutside | backend/app.py:238 | two paragraphs that agree outside the spans are rewritten to the same text |
| Anonymize.IsSpace | backend/app.py:221 | the characters `str.strip` removes include space, tab, newline and carriage return, and no ASCII letter or digit |
| Anonymize.IsBlank | backend/app.py:221 | an empty paragraph is blank, and a blank paragraph holds no digit |
| Anonymize.MergedOf | backend/app.py:225 | the spans of one paragraph are chained within it, descending, taken from the detectors' output, and each has a kind with its own branch in `fake_value` |
| Anonymize.ParagraphOut | backend/app.py:220-240 | a blank paragraph, or one with no merged span, comes out unchanged |
| Anonymize.ParagraphWrites | backend/app.py:220-236 | a blank paragraph assigns nothing; any other assigns once per merged span, each entry with a handled kind |
| Anonymize.DocWrites | backend/app.py:220-236 | every assignment of the document records a handled kind |
| Anonymize.AnonymizeParagraph | backend/app.py:221-240 | a blank paragraph is unchanged and adds nothing to the dict; any other is merged, rewritten and recorded |
| Anonymize.AnonymizeParagraphs | backend/app.py:218-240 | one output per paragraph, each the paragraph rewritten; blank paragraphs untouched; one dict for the whole document, built from the assignments of every paragraph in order |
| Anonymize.Outs | backend/app.py:220-240 | one new text per paragraph |
| Anonymize.OutsIndex | backend/app.py:220-240 | output paragraph `i` is paragraph `i` rewritten |
| Anonymize.OutsAt | backend/app.py:220-222 | every output paragraph is its paragraph rewritten, and a blank paragraph comes out unchanged |
| Anonymize.ParagraphRewrite | backend/app.py:184-240 | when the detectors report start <= end, the merged spans are chained and inside the paragraph, and the new text is the spliced description, of length `len(text) - widths + len(fakes)` |

The remaining lemmas are proof helpers and need no row of their own:
- the one-step unfoldings `RewriteAllStep`, `RecordAllStep`,
  `RecordAllCons`, `NewKeysCons`, `OutsStep`, `DocWritesStep`, `SweepAt`,
  `SnocAt`, `SplicedUnfold`, `FiltersCons` and `WroteCons`;
- the filter facts `NoneAbove`, `NoneAtOrAbove`, `AtStartSelf`, `AtStartNone`,
  `SplitCons`, `ConsSplit` and `HeadAboveTail`;
- the sequence facts `ChainedLower`, `DistinctCard`, `DistinctSnoc`,
  `ReplaceWithin`, `AppendAssoc`, `PrefixOfConcat`, `PrefixOfPrefixString`
  and `SliceOfPrefix`.

The specification functions and predicates without a row of their own are
stated through the lemmas about them. They are `Distinct`, `SortedDesc`,
`AtStart`, `Above`, `Below`, `Chained`, `WellFormed`, `IsSubsequence`,
`DecimalValue`, `RemoveChar`, `Pow10`, `DigitChar`, `DigitValue`, `IsDigit`,
`IsLowerHex`, `AllDigits`, `ValidMapping`, `IsLastWrite`, `Wrote`,
`Spliced`, `Width`, `TotalLength`, `Covered` and `DetectorsWellFormed`.
`RemoveChar` in particular is not an operation of the back end: it
specifies the digits of an amount.
`RewriteAll`, the in-place loop itself, is stated through
`SubstituteParagraph` and `RewriteAllIsSpliced`.

## Left out

- The FastAPI routes are not modelled. This covers the static mount, HTML serving, `/download`, the `.docx` suffix check and the HTTP errors. They are web transport and file I/O.
- DOCX parsing and saving are not modelled, and neither is the pandas CSV writer. A document is its sequence of paragraph texts, and the export is `Rows`.
- The CamemBERT model and its tokenizer are not modelled. Their output is the input `ner(text)`.
- The matching semantics of `PII_REGEX` (Python `re` with IGNORECASE) are not modelled. Each pattern's match list is the input `matches(kind, text)`. So the model does not capture which texts a pattern accepts.
- Fernet is the parameter `encrypt(plaintext, nonce)`. The model does not prove that decryption recovers the original.
- Faker's value realism is not modelled. Its draws are fields of `FakerDraw`, and so are `uuid4().hex` and `date.today().year`. The FIRST_NAME, LAST_NAME, ORGANIZATION, SIREN, SIRET, ZIP_CODE, CITY, EMAIL, PHONE_NUMBER and IBAN values are the drawn strings as they are. The PERSON value is the drawn first name, a space, then the drawn last name.
- The AGE value uses `IntToString`, which writes a minus sign for a negative difference. The age bounds Faker guarantees (18 to 80) are not modelled.
- `.env` loading and the `FERNET_KEY` check are not modelled. The output file names are not modelled either.
- The document's uuid is not modelled.
- `str.strip` is modelled through `str.isspace` on code points. That is the test `not p.text.strip()` makes. Characters beyond the listed code points are taken as non-space.
- Merge.MergeTieBreak: proved only for spans at the tied start whose width is not zero. A zero-width span at the boundary fits again and can be kept beside another span with the same start.
- Anonymize.ParagraphRewrite: the splice description and the length formula are stated only when the detectors report start <= end. Otherwise Python's clipping gives the in-place result `RewriteAll`, which `SubstituteParagraph` still states.
