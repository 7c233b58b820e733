/** The synthetic value generator of the anonymizer back end
    (backend/app.py, fake_value): a case split on the entity kind.

    The Faker library, `uuid.uuid4()` and `date.today()` are sources of
    randomness and time: what one call draws from them is the parameter
    `d: FakerDraw`. Decimal and date formatting is written out. */
module Fake {

  /** What one call of fake_value may draw from Faker, uuid4 and the clock. */
  datatype FakerDraw = FakerDraw(
    firstName: string,
    lastName: string,
    birthDay: nat,        // fake.date_of_birth(...).day
    birthMonth: nat,      // .month
    birthYear: nat,       // .year
    todayYear: nat,       // date.today().year
    company: string,
    siren: string,
    siret: string,
    vatNumber: nat,       // fake.random_number(digits=11)
    address: string,      // fake.address(), lines separated by "\n"
    postcode: string,
    city: string,
    email: string,
    phone: string,
    iban: string,
    amount: nat,          // fake.random_int(1000, 150000)
    uuidHex: string)      // uuid.uuid4().hex

  /** The kinds that have a branch of their own. */
  const HandledKinds: set<string> :=
    {"PERSON", "FIRST_NAME", "LAST_NAME", "DATE", "AGE", "ORGANIZATION", "SIREN", "SIRET",
     "VAT_NUMBER", "ADDRESS", "ZIP_CODE", "CITY", "EMAIL", "PHONE_NUMBER", "IBAN",
     "REVENUE", "TAX_AMOUNT", "OTHER_INCOME"}

  /** The kinds rendered as an amount in euros. */
  const AmountKinds: seq<string> := ["REVENUE", "TAX_AMOUNT", "OTHER_INCOME"]

  // ---------------------------------------------------------------------
  // Characters and decimal formatting
  // ---------------------------------------------------------------------

  predicate IsDigit(c: char)
  {
    '0' <= c <= '9'
  }

  predicate IsLowerHex(c: char)
  {
    IsDigit(c) || 'a' <= c <= 'f'
  }

  predicate AllDigits(s: string)
  {
    forall i :: 0 <= i < |s| ==> IsDigit(s[i])
  }

  function DigitChar(d: nat): (c: char)
    requires d < 10
    ensures IsDigit(c)
  {
    ('0' as int + d) as char
  }

  function DigitValue(c: char): nat
  {
    if IsDigit(c) then c as int - '0' as int else 0
  }

  /** `str(n)` for a non-negative integer: digits without leading zeros. */
  function NatToString(n: nat): (r: string)
    ensures |r| >= 1 && AllDigits(r)
    ensures |r| > 1 ==> r[0] != '0'
  {
    if n < 10 then [DigitChar(n)] else NatToString(n / 10) + [DigitChar(n % 10)]
  }

  /** The number a string of decimal digits denotes. */
  function DecimalValue(s: string): nat
  {
    if s == [] then 0 else 10 * DecimalValue(s[..|s| - 1]) + DigitValue(s[|s| - 1])
  }

  /** `str(i)` for any integer. */
  function IntToString(i: int): (r: string)
    ensures |r| >= 1 && (r[0] == '-' <==> i < 0)
    ensures AllDigits(r[1..]) && (i >= 0 ==> AllDigits(r))
  {
    if i < 0 then "-" + NatToString(-i) else NatToString(i)
  }

  function Pow10(m: nat): (p: nat)
    ensures p >= 1
  {
    if m == 0 then 1 else 10 * Pow10(m - 1)
  }

  /** `strftime` "%d" and "%m": two digits, zero-padded. */
  function Pad2(n: nat): (r: string)
    ensures |r| >= 2 && AllDigits(r)
    ensures n < 100 ==> |r| == 2
  {
    if n < 10 then "0" + NatToString(n)
    else
      assert NatToString(n) == NatToString(n / 10) + [DigitChar(n % 10)];
      NatToString(n)
  }

  /** A three-digit group of the thousands format, zero-padded. */
  function Pad3(g: nat): (r: string)
    requires g < 1000
    ensures |r| == 3 && AllDigits(r)
  {
    [DigitChar(g / 10 / 10), DigitChar(g / 10 % 10), DigitChar(g % 10)]
  }

  /** `f"{n:,}"`: the decimal digits with a comma between groups of three. */
  function WithCommas(n: nat): (r: string)
    ensures |r| >= 1 && IsDigit(r[0]) && IsDigit(r[|r| - 1])
  {
    if n < 1000 then NatToString(n) else WithCommas(n / 1000) + "," + Pad3(n % 1000)
  }

  /** `s.replace(c, repl)` for a one-character pattern. */
  function ReplaceChar(s: string, c: char, repl: string): (r: string)
    ensures |repl| == 1 ==> |r| == |s|
    ensures forall x :: x in r && x !in repl ==> x in s && x != c
  {
    if s == [] then [] else (if s[0] == c then repl else [s[0]]) + ReplaceChar(s[1..], c, repl)
  }

  /** `s` with every occurrence of `c` removed. */
  function RemoveChar(s: string, c: char): string
  {
    if s == [] then [] else (if s[0] == c then [] else [s[0]]) + RemoveChar(s[1..], c)
  }

  /** `s[:n]`, which is all of `s` when it is shorter. */
  function Take(s: string, n: nat): (r: string)
    ensures r <= s
    ensures |r| == n || (|s| < n && r == s)
  {
    if |s| <= n then s else s[..n]
  }

  /** `dob.strftime("%d/%m/%Y")`. */
  function FormatDate(day: nat, month: nat, year: nat): (r: string)
    ensures |r| >= 7
    ensures day < 100 && month < 100 ==> r[2] == '/' && r[5] == '/'
  {
    Pad2(day) + "/" + Pad2(month) + "/" + NatToString(year)
  }

  // ---------------------------------------------------------------------
  // fake_value
  // ---------------------------------------------------------------------

  /** fake_value(entity, original): `original` is accepted and never read. */
  function FakeValue(entity: string, original: string, d: FakerDraw): (r: string)
    ensures entity == "AGE" ==> |r| >= 1 && (r[0] == '-' <==> d.todayYear < d.birthYear)
    ensures entity == "DATE" ==> |r| >= 7
    ensures entity == "VAT_NUMBER" ==> |r| >= 3 && r[..2] == "FR" && AllDigits(r[2..])
    ensures entity !in HandledKinds ==> |r| >= |entity| + 3 && r[0] == '<' && r[|r| - 1] == '>'
  {
    if entity == "PERSON" then d.firstName + " " + d.lastName
    else if entity == "FIRST_NAME" then d.firstName
    else if entity == "LAST_NAME" then d.lastName
    else if entity == "DATE" then FormatDate(d.birthDay, d.birthMonth, d.birthYear)
    else if entity == "AGE" then IntToString(d.todayYear - d.birthYear)
    else if entity == "ORGANIZATION" then d.company
    else if entity == "SIREN" then d.siren
    else if entity == "SIRET" then d.siret
    else if entity == "VAT_NUMBER" then "FR" + NatToString(d.vatNumber)
    else if entity == "ADDRESS" then ReplaceChar(d.address, '\n', ", ")
    else if entity == "ZIP_CODE" then d.postcode
    else if entity == "CITY" then d.city
    else if entity == "EMAIL" then d.email
    else if entity == "PHONE_NUMBER" then d.phone
    else if entity == "IBAN" then d.iban
    else if entity in AmountKinds then ReplaceChar(WithCommas(d.amount) + " €", ',', " ")
    else "<" + entity + "_" + Take(d.uuidHex, 6) + ">"
  }

  // ---------------------------------------------------------------------
  // Properties of the formatting helpers
  // ---------------------------------------------------------------------

  /** Reading back the digits `str(n)` writes gives `n`. */
  lemma {:induction false} NatToStringRoundTrip(n: nat)
    ensures DecimalValue(NatToString(n)) == n
  {
    if n >= 10 {
      var s := NatToString(n);
      assert s[..|s| - 1] == NatToString(n / 10);
      NatToStringRoundTrip(n / 10);
    }
  }

  /** `str(n)` has at most `m` digits when `n < 10^m`. */
  lemma {:induction false} NatToStringShort(n: nat, m: nat)
    requires 1 <= m && n < Pow10(m)
    ensures |NatToString(n)| <= m
  {
    if n >= 10 {
      NatToStringShort(n / 10, m - 1);
    }
  }

  /** `str(n)` has exactly `m` digits when `10^(m-1) <= n < 10^m`. */
  lemma {:induction false} NatToStringLength(n: nat, m: nat)
    requires 1 <= m && Pow10(m - 1) <= n < Pow10(m)
    ensures |NatToString(n)| == m
  {
    if n >= 10 {
      NatToStringLength(n / 10, m - 1);
    }
  }

  lemma NatToStringAppend(q: nat, d: nat)
    requires 1 <= q && d < 10
    ensures NatToString(10 * q + d) == NatToString(q) + [DigitChar(d)]
  {
    assert (10 * q + d) / 10 == q && (10 * q + d) % 10 == d;
  }

  /** The digits of `1000 * q + g` are those of `q` followed by `g` zero-padded to three. */
  lemma NatToStringThousands(q: nat, g: nat)
    requires 1 <= q && g < 1000
    ensures NatToString(1000 * q + g) == NatToString(q) + Pad3(g)
  {
    var t := g / 10;
    var a, b, c := t / 10, t % 10, g % 10;
    assert g == 10 * t + c;
    assert t == 10 * a + b;
    var n1 := 10 * q + a;
    var n2 := 10 * n1 + b;
    assert n2 == 100 * q + t;
    assert 10 * n2 + c == 1000 * q + g;
    NatToStringAppend(n2, c);
    NatToStringAppend(n1, b);
    NatToStringAppend(q, a);
  }

  /** Dropping the thousands separators of `f"{n:,}"` gives `str(n)`. */
  lemma {:induction false} WithCommasDigits(n: nat)
    ensures RemoveChar(WithCommas(n), ',') == NatToString(n)
  {
    if n < 1000 {
      RemoveAbsent(NatToString(n), ',');
    } else {
      var q, g := n / 1000, n % 1000;
      WithCommasDigits(q);
      WithCommasStep(q, g);
      assert n == 1000 * q + g;
    }
  }

  lemma WithCommasStep(q: nat, g: nat)
    requires 1 <= q && g < 1000
    requires RemoveChar(WithCommas(q), ',') == NatToString(q)
    ensures RemoveChar(WithCommas(q) + "," + Pad3(g), ',') == NatToString(1000 * q + g)
  {
    var hi, p := WithCommas(q), Pad3(g);
    assert hi + "," + p == hi + ("," + p);
    RemoveConcat(hi, "," + p, ',');
    RemoveConcat(",", p, ',');
    RemoveAbsent(p, ',');
    assert RemoveChar(",", ',') == [];
    NatToStringThousands(q, g);
  }

  /** `f"{n:,}"` contains no space. */
  lemma {:induction false} WithCommasNoSpace(n: nat)
    ensures ' ' !in WithCommas(n)
  {
    if n >= 1000 {
      WithCommasNoSpace(n / 1000);
    }
  }

  lemma {:induction false} RemoveAbsent(s: string, c: char)
    requires c !in s
    ensures RemoveChar(s, c) == s
  {
    if s != [] {
      RemoveAbsent(s[1..], c);
      assert s == [s[0]] + s[1..];
    }
  }

  lemma {:induction false} RemoveConcat(a: string, b: string, c: char)
    ensures RemoveChar(a + b, c) == RemoveChar(a, c) + RemoveChar(b, c)
  {
    if a == [] {
      assert a + b == b;
    } else {
      assert (a + b)[1..] == a[1..] + b;
      RemoveConcat(a[1..], b, c);
    }
  }

  lemma {:induction false} ReplaceConcat(a: string, b: string, c: char, repl: string)
    ensures ReplaceChar(a + b, c, repl) == ReplaceChar(a, c, repl) + ReplaceChar(b, c, repl)
  {
    if a == [] {
      assert a + b == b;
    } else {
      assert (a + b)[1..] == a[1..] + b;
      ReplaceConcat(a[1..], b, c, repl);
    }
  }

  /** After `s.replace(c, repl)` with `c` not in `repl`, no `c` is left. */
  lemma {:induction false} ReplaceRemoves(s: string, c: char, repl: string)
    requires c !in repl
    ensures c !in ReplaceChar(s, c, repl)
  {
    if s != [] {
      ReplaceRemoves(s[1..], c, repl);
    }
  }

  /** Replacing `c` by a character `e` absent from `s`, then dropping `e`,
      is the same as dropping `c`. */
  lemma {:induction false} ReplaceThenRemove(s: string, c: char, e: char)
    requires e !in s && c != e
    ensures RemoveChar(ReplaceChar(s, c, [e]), e) == RemoveChar(s, c)
  {
    if s != [] {
      ReplaceThenRemove(s[1..], c, e);
      var h := if s[0] == c then [e] else [s[0]];
      ReplaceConcat(h, s[1..], c, [e]);
      RemoveConcat(h, ReplaceChar(s[1..], c, [e]), e);
    }
  }

  lemma Pad2Value(n: nat)
    requires n < 100
    ensures |Pad2(n)| == 2 && AllDigits(Pad2(n)) && DecimalValue(Pad2(n)) == n
  {
    NatToStringRoundTrip(n);
    if n >= 10 {
      NatToStringLength(n, 2);
    } else {
      var s := Pad2(n);
      assert s[..1] == "0";
    }
  }

  // ---------------------------------------------------------------------
  // Shapes of the generated values
  // ---------------------------------------------------------------------

  /** Fallback: an unhandled kind yields `<KIND_h>`, where `h` is the first six
      characters of the uuid's hex form, hence six lower-case hex digits. */
  lemma FallbackShape(entity: string, original: string, d: FakerDraw)
    requires entity !in HandledKinds
    requires |d.uuidHex| == 32 && forall i :: 0 <= i < 32 ==> IsLowerHex(d.uuidHex[i])
    ensures var r := FakeValue(entity, original, d);
      && |r| == |entity| + 9
      && r[0] == '<' && r[1..|entity| + 1] == entity && r[|entity| + 1] == '_'
      && r[|entity| + 2..|entity| + 8] == d.uuidHex[..6]
      && (forall i :: |entity| + 2 <= i < |entity| + 8 ==> IsLowerHex(r[i]))
      && r[|entity| + 8] == '>'
  {
    var r := FakeValue(entity, original, d);
    assert entity !in AmountKinds;
    assert r == "<" + entity + "_" + d.uuidHex[..6] + ">";
    forall i | |entity| + 2 <= i < |entity| + 8 ensures IsLowerHex(r[i]) {
      assert r[i] == d.uuidHex[i - |entity| - 2];
    }
  }

  /** VAT: "FR" followed by the decimal digits of the drawn number, which read
      back as that number; with the draw below 10^11 there are at most eleven
      digits, and fewer when the draw is small (no zero-padding). */
  lemma VatShape(original: string, d: FakerDraw)
    ensures var r := FakeValue("VAT_NUMBER", original, d);
      && r[..2] == "FR"
      && AllDigits(r[2..]) && |r| >= 3
      && DecimalValue(r[2..]) == d.vatNumber
      && (d.vatNumber < Pow10(11) ==> |r| <= 13)
  {
    var r := FakeValue("VAT_NUMBER", original, d);
    assert r[2..] == NatToString(d.vatNumber);
    NatToStringRoundTrip(d.vatNumber);
    if d.vatNumber < Pow10(11) {
      NatToStringShort(d.vatNumber, 11);
    }
  }

  /** A drawn VAT number of 42 gives "FR42", four characters, where the VAT
      pattern of the detector expects "FR" and eleven digits. */
  lemma VatNotPadded(original: string, d: FakerDraw)
    requires d.vatNumber == 42
    ensures FakeValue("VAT_NUMBER", original, d) == "FR42"
  {
    NatToStringAppend(4, 2);
  }

  /** Amounts: the drawn amount's digits with spaces in place of the thousands
      commas, then " €"; no comma is left, and dropping the spaces before " €"
      gives the digits of the drawn amount. (Where the spaces fall is not
      stated here.) */
  lemma AmountShape(entity: string, original: string, d: FakerDraw)
    requires entity in AmountKinds
    ensures var r := FakeValue(entity, original, d);
      && |r| >= 3 && r[|r| - 2..] == " €"
      && ',' !in r
      && RemoveChar(r[..|r| - 2], ' ') == NatToString(d.amount)
  {
    var w := WithCommas(d.amount);
    var r := FakeValue(entity, original, d);
    ReplaceConcat(w, " €", ',', " ");
    var g := ReplaceChar(w, ',', " ");
    assert ReplaceChar(" €", ',', " ") == " €";
    assert r == g + " €";
    ReplaceRemoves(w + " €", ',', " ");
    WithCommasDigits(d.amount);
    WithCommasNoSpace(d.amount);
    ReplaceThenRemove(w, ',', ' ');
    assert |w| >= 1;
    assert r[..|r| - 2] == g;
  }

  /** DATE: "DD/MM/YYYY" whose fields read back as the drawn birth date. */
  lemma DateShape(original: string, d: FakerDraw)
    requires 1 <= d.birthDay <= 31 && 1 <= d.birthMonth <= 12 && 1000 <= d.birthYear <= 9999
    ensures var r := FakeValue("DATE", original, d);
      && |r| == 10 && r[2] == '/' && r[5] == '/'
      && AllDigits(r[..2]) && AllDigits(r[3..5]) && AllDigits(r[6..])
      && DecimalValue(r[..2]) == d.birthDay
      && DecimalValue(r[3..5]) == d.birthMonth
      && DecimalValue(r[6..]) == d.birthYear
  {
    var r := FakeValue("DATE", original, d);
    var dd, mm, yy := Pad2(d.birthDay), Pad2(d.birthMonth), NatToString(d.birthYear);
    Pad2Value(d.birthDay);
    Pad2Value(d.birthMonth);
    NatToStringLength(d.birthYear, 4);
    NatToStringRoundTrip(d.birthYear);
    assert r == dd + "/" + mm + "/" + yy;
    assert r[..2] == dd && r[3..5] == mm && r[6..] == yy;
  }

  /** ADDRESS: the drawn address on one line, its line breaks replaced by ", ". */
  lemma AddressShape(original: string, d: FakerDraw)
    ensures '\n' !in FakeValue("ADDRESS", original, d)
    ensures '\n' !in d.address ==> FakeValue("ADDRESS", original, d) == d.address
  {
    ReplaceRemoves(d.address, '\n', ", ");
    if '\n' !in d.address {
      ReplaceAbsent(d.address, '\n', ", ");
    }
  }

  lemma {:induction false} ReplaceAbsent(s: string, c: char, repl: string)
    requires c !in s
    ensures ReplaceChar(s, c, repl) == s
  {
    if s != [] {
      ReplaceAbsent(s[1..], c, repl);
      assert s == [s[0]] + s[1..];
    }
  }

  /** The generated value does not depend on the original text. */
  lemma OriginalUnused(entity: string, original1: string, original2: string, d: FakerDraw)
    ensures FakeValue(entity, original1, d) == FakeValue(entity, original2, d)
  {
  }
}
