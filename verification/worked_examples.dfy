/**
 * Input/output pairs from the repository's own unit tests (src/lib/french.rs),
 * some shortened, evaluated on the model, and one text on which the two
 * generations of the formatter disagree. Each example is stated for a text `s`
 * equal to a literal; the loops are walked one step at a time: a step that writes
 * is given its result, and a stretch of steps that write nothing is skipped in one
 * go.
 */
module FrenchExamples {
  import opened Unicode
  import opened Common
  import opened Maybe
  import opened Clean
  import opened CleanQuotes
  import opened FrenchScan
  import opened FrenchNumbers
  import opened FrenchPunctuation
  import opened FrenchSpacing
  import opened French
  import opened LegacyFrench
  import opened CleanExamples

  /** The thresholds of the current `FrenchFormatter::new()`. */
  const T: Thresholds := Thresholds(3, 2, 20, 3)

  /** The thresholds of the first `FrenchFormatter::new()`. */
  const LT: Thresholds := Thresholds(3, 2, 28, 3)

  // ---------------------------------------------------------------------------
  // Walking the loops
  // ---------------------------------------------------------------------------

  /** No character any cleaning pass reacts to, checked position by position. */
  predicate CleanChars(s: string, i: nat)
    decreases |s| - i
  {
    i >= |s|
    || (&& s[i] != '.' && !DoubleDashAt(s, i) && s[i] != '<' && s[i] != '>' && !IsStraightQuote(s[i])
        && !RunAt(s, i)
        && CleanChars(s, i + 1))
  }

  lemma {:induction false} CleanCharsFrom(s: string, i: nat, k: nat)
    requires CleanChars(s, i) && i <= k
    ensures !RunAt(s, k) && !EllipsisTriggerAt(s, k) && !DoubleDashAt(s, k) && !AnglePairAt(s, k)
    ensures k < |s| ==> !IsStraightQuote(s[k])
    decreases k - i
  {
    if i < k && i < |s| {
      CleanCharsFrom(s, i + 1, k);
    }
  }

  /** A text passing the position-by-position check is already clean. */
  lemma CleanCharsClean(s: string)
    requires CleanChars(s, 0)
    ensures AlreadyClean(s)
  {
    forall k: nat
      ensures !RunAt(s, k) && !EllipsisTriggerAt(s, k) && !DoubleDashAt(s, k) && !AnglePairAt(s, k)
      ensures k < |s| ==> !IsStraightQuote(s[k])
    {
      CleanCharsFrom(s, 0, k);
    }
  }

  /** A position where the step of the punctuation pass writes nothing. */
  predicate Idle(c: string, i: nat)
    requires i + 1 < |c|
  {
    if IsSpaceLike(c[i]) then
      && c[i + 1] != '?' && c[i + 1] != '!' && c[i + 1] != ';' && c[i + 1] != ':'
      && (c[i + 1] == ClosingGuillemet ==> c[i] != ' ')
    else !((IsDashChar(c[i]) || c[i] == OpeningGuillemet) && IsSpaceLike(c[i + 1]))
  }

  predicate IdleRange(c: string, i: nat, j: nat)
    requires j < |c|
    decreases j - i
  {
    i >= j || (Idle(c, i) && IdleRange(c, i + 1, j))
  }

  lemma {:induction false} SkipIdle(t: Thresholds, m: Marks, legacy: bool, c: string, i: nat, j: nat)
    requires i <= j < |c| && IdleRange(c, i, j)
    ensures PunctuationFrom(t, m, legacy, c, i) == PunctuationFrom(t, m, legacy, c, j)
    decreases j - i
  {
    if i < j {
      assert PunctuationStep(t, m, legacy, c, i) == c;
      SkipIdle(t, m, legacy, c, i + 1, j);
    }
  }

  /** One step of the punctuation pass, given its result. */
  lemma Hop(t: Thresholds, m: Marks, legacy: bool, c: string, i: nat, next: string)
    requires i + 1 < |c| && PunctuationStep(t, m, legacy, c, i) == next
    ensures PunctuationFrom(t, m, legacy, c, i) == PunctuationFrom(t, m, legacy, next, i + 1)
  {
  }

  /** A text with something to punctuate and no digit goes straight to the
      punctuation pass. */
  lemma PunctuationOnly(t: Thresholds, o: Output, legacy: bool, c: string, f: nat)
    requires FindTrouble(c, 0) == Some(f) && FindDigit(c, 0) == None
    ensures Spacing(t, o, legacy, c) == PunctuationFrom(t, MarksOf(o), legacy, c, StepBack(f))
  {
  }

  /** A text with nothing to punctuate gets the number pass only. */
  lemma NumbersOnly(t: Thresholds, o: Output, legacy: bool, c: string)
    requires FindTrouble(c, 0) == None && FindDigit(c, 0) == Some(0)
    ensures Spacing(t, o, legacy, c) == NumberFrom(t, MarksOf(o).narrow, c, 0, false)
  {
  }

  // ---------------------------------------------------------------------------
  // Numbers (src/lib/french.rs:555-594)
  // ---------------------------------------------------------------------------

  lemma TenThousandScan()
    ensures AlreadyClean("10 000")
    ensures FindTrouble("10 000", 0) == None && FindDigit("10 000", 0) == Some(0)
  {
    CleanCharsClean("10 000");
  }

  /** `format_tex("10 000")` is `10~000`. */
  lemma TenThousand(s: string)
    requires s == "10 000"
    ensures AlreadyClean(s)
    ensures Spacing(T, Latex, false, s) == "10~000"
  {
    TenThousandScan();
    NumbersOnly(T, Latex, false, s);
    assert NumberFrom(T, '~', s, 0, false) == NumberFrom(T, '~', s, 1, true);
    assert NumberFrom(T, '~', s, 1, true) == NumberFrom(T, '~', s, 2, true);
    var s1 := s[2 := '~'];
    assert s1 == "10~000";
    assert NumberFrom(T, '~', s, 2, true) == NumberFrom(T, '~', s1, 3, true);
    assert NumberFrom(T, '~', s1, 3, true) == NumberFrom(T, '~', s1, 4, true);
    assert NumberFrom(T, '~', s1, 4, true) == NumberFrom(T, '~', s1, 5, true);
  }

  lemma EurosScan()
    ensures AlreadyClean("10 000 euros")
    ensures FindTrouble("10 000 euros", 0) == None && FindDigit("10 000 euros", 0) == Some(0)
  {
    CleanCharsClean("10 000 euros");
  }

  /** "euros" is too long for a unit. */
  lemma EurosNotUnit()
    ensures !CharIsSymbol(T, "10~000 euros", 7)
  {
    assert FindAlphabetic("10~000 euros", 7) == Some(7);
    assert FindWhitespace("10~000 euros", 7) == None;
    assert GetNextWord("10~000 euros", 7) == "euros";
  }

  lemma EurosWord(s: string)
    requires s == "10~000 euros"
    ensures NumberFrom(T, '~', s, 7, true) == s
  {
    EurosNotUnit();
    assert NumberFrom(T, '~', s, 7, true) == NumberFrom(T, '~', s, 8, false);
    assert NumberFrom(T, '~', s, 8, false) == NumberFrom(T, '~', s, 9, false);
    assert NumberFrom(T, '~', s, 9, false) == NumberFrom(T, '~', s, 10, false);
    assert NumberFrom(T, '~', s, 10, false) == NumberFrom(T, '~', s, 11, false);
  }

  lemma EurosTail(s: string)
    requires s == "10~000 euros"
    ensures NumberFrom(T, '~', s, 3, true) == s
  {
    EurosWord(s);
    EurosDigits(s);
    EurosSpace(s);
  }

  lemma EurosDigits(s: string)
    requires s == "10~000 euros"
    ensures NumberFrom(T, '~', s, 3, true) == NumberFrom(T, '~', s, 6, true)
  {
    assert NumberFrom(T, '~', s, 3, true) == NumberFrom(T, '~', s, 4, true);
    assert NumberFrom(T, '~', s, 4, true) == NumberFrom(T, '~', s, 5, true);
  }

  lemma EurosSpace(s: string)
    requires s == "10~000 euros"
    ensures NumberFrom(T, '~', s, 6, true) == NumberFrom(T, '~', s, 7, true)
  {
    EurosNotUnit();
  }

  /** The three texts with a unit after `10 000`, split after the number's space. */
  lemma TenThousandTexts()
    ensures "10 000 euros" == "10 000 " + "euros" && "10~000 euros" == "10~000 " + "euros"
    ensures "10 000 €" == "10 000 " + "€" && "10~000 €" == "10~000 " + "€"
    ensures "10 000 EUR" == "10 000 " + "EUR" && "10~000 EUR" == "10~000 " + "EUR"
  {
  }

  /** The first three steps of the number loop on `10 000 ` followed by any text:
      the space inside the number is marked, and the loop goes on past it inside
      the number. */
  lemma TenThousandHead(s: string, s1: string, tail: string)
    requires s == "10 000 " + tail && s1 == "10~000 " + tail
    ensures NumberFrom(T, '~', s, 0, false) == NumberFrom(T, '~', s1, 3, true)
  {
    assert NumberFrom(T, '~', s, 0, false) == NumberFrom(T, '~', s, 1, true);
    assert NumberFrom(T, '~', s, 1, true) == NumberFrom(T, '~', s, 2, true);
    assert s[2 := '~'] == s1;
  }

  /** `format_tex("10 000 euros")` is `10~000 euros`: a long word after a number is
      no unit. */
  lemma TenThousandEuros(s: string)
    requires s == "10 000 euros"
    ensures AlreadyClean(s)
    ensures Spacing(T, Latex, false, s) == "10~000 euros"
  {
    EurosScan();
    NumbersOnly(T, Latex, false, s);
    TenThousandTexts();
    TenThousandHead(s, "10~000 euros", "euros");
    EurosTail("10~000 euros");
  }

  lemma EuroSignScan()
    ensures AlreadyClean("10 000 €")
    ensures FindTrouble("10 000 €", 0) == None && FindDigit("10 000 €", 0) == Some(0)
    ensures CharIsSymbol(T, "10~000 €", 7)
  {
    CleanCharsClean("10 000 €");
  }

  /** `format_tex("10 000 €")` is `10~000~€`: a currency sign is a unit. */
  lemma TenThousandEuroSign(s: string)
    requires s == "10 000 €"
    ensures AlreadyClean(s)
    ensures Spacing(T, Latex, false, s) == "10~000~€"
  {
    EuroSignScan();
    NumbersOnly(T, Latex, false, s);
    TenThousandTexts();
    TenThousandHead(s, "10~000 €", "€");
    EuroSignTail("10~000 €", "10~000~€");
  }


  lemma EuroSignTail(s1: string, s2: string)
    requires s1 == "10~000 €" && s2 == "10~000~€"
    ensures NumberFrom(T, '~', s1, 3, true) == s2
  {
    assert NumberFrom(T, '~', s1, 3, true) == NumberFrom(T, '~', s1, 4, true);
    assert NumberFrom(T, '~', s1, 4, true) == NumberFrom(T, '~', s1, 5, true);
    assert NumberFrom(T, '~', s1, 5, true) == NumberFrom(T, '~', s1, 6, true);
    assert s1[6 := '~'] == s2;
    assert NumberFrom(T, '~', s1, 6, true) == NumberFrom(T, '~', s2, 7, true);
  }

  lemma KilometresScan()
    ensures AlreadyClean("50 km")
    ensures FindTrouble("50 km", 0) == None && FindDigit("50 km", 0) == Some(0)
  {
    CleanCharsClean("50 km");
  }

  /** "km" is short enough for a unit. */
  lemma KilometresUnit()
    ensures CharIsSymbol(T, "50 km", 3)
  {
    assert FindAlphabetic("50 km", 3) == Some(3);
    assert FindWhitespace("50 km", 3) == None;
    assert GetNextWord("50 km", 3) == "km";
  }

  /** `format_tex("50 km")` is `50~km`. */
  lemma FiftyKilometres(s: string)
    requires s == "50 km"
    ensures AlreadyClean(s)
    ensures Spacing(T, Latex, false, s) == "50~km"
  {
    KilometresScan();
    KilometresUnit();
    NumbersOnly(T, Latex, false, s);
    assert NumberFrom(T, '~', s, 0, false) == NumberFrom(T, '~', s, 1, true);
    assert NumberFrom(T, '~', s, 1, true) == NumberFrom(T, '~', s, 2, true);
    var s1 := s[2 := '~'];
    assert s1 == "50~km";
    assert NumberFrom(T, '~', s, 2, true) == NumberFrom(T, '~', s1, 3, true);
    assert NumberFrom(T, '~', s1, 3, true) == NumberFrom(T, '~', s1, 4, false);
  }

  lemma EurCodeScan()
    ensures AlreadyClean("10 000 EUR")
    ensures FindTrouble("10 000 EUR", 0) == None && FindDigit("10 000 EUR", 0) == Some(0)
  {
    CleanCharsClean("10 000 EUR");
  }

  /** "EUR" is an upper-case code no longer than the currency threshold. */
  lemma EurCode()
    ensures CharIsSymbol(T, "10~000 EUR", 7)
  {
    assert FindAlphabetic("10~000 EUR", 7) == Some(7);
    assert FindWhitespace("10~000 EUR", 7) == None;
    assert GetNextWord("10~000 EUR", 7) == "EUR";
  }


  lemma EurMiddle(s1: string, s2: string)
    requires s1 == "10~000 EUR" && s2 == "10~000~EUR"
    ensures NumberFrom(T, '~', s1, 3, true) == NumberFrom(T, '~', s2, 7, true)
  {
    EurCode();
    assert NumberFrom(T, '~', s1, 3, true) == NumberFrom(T, '~', s1, 6, true);
    assert s1[6 := '~'] == s2;
    assert NumberFrom(T, '~', s1, 6, true) == NumberFrom(T, '~', s2, 7, true);
  }

  lemma EurTail(s2: string)
    requires s2 == "10~000~EUR"
    ensures NumberFrom(T, '~', s2, 7, true) == s2
  {
    assert NumberFrom(T, '~', s2, 7, true) == NumberFrom(T, '~', s2, 8, false);
    assert NumberFrom(T, '~', s2, 8, false) == NumberFrom(T, '~', s2, 9, false);
  }

  /** `format_tex("10 000 EUR")` is `10~000~EUR`: a currency code is a unit. */
  lemma TenThousandEur(s: string)
    requires s == "10 000 EUR"
    ensures AlreadyClean(s)
    ensures Spacing(T, Latex, false, s) == "10~000~EUR"
  {
    EurCodeScan();
    NumbersOnly(T, Latex, false, s);
    TenThousandTexts();
    TenThousandHead(s, "10~000 EUR", "EUR");
    EurMiddle("10~000 EUR", "10~000~EUR");
    EurTail("10~000~EUR");
  }

  /** `50 %`, `20 °C` and `20 F`: a number, a space and a short unit. */
  predicate ShortUnit(s: string) {
    s == "50 %" || s == "20 °C" || s == "20 F"
  }

  lemma ShortUnitScan(s: string)
    requires ShortUnit(s)
    ensures AlreadyClean(s)
    ensures FindTrouble(s, 0) == None && FindDigit(s, 0) == Some(0)
    ensures CharIsSymbol(T, s, 3)
  {
    if s == "50 %" {
      PercentScan(s);
    } else if s == "20 °C" {
      DegreesScan(s);
    } else {
      FahrenheitScan(s);
    }
  }

  lemma PercentScan(s: string)
    requires s == "50 %"
    ensures AlreadyClean(s)
    ensures FindTrouble(s, 0) == None && FindDigit(s, 0) == Some(0)
    ensures CharIsSymbol(T, s, 3)
  {
    CleanCharsAll(s, 0);
    CleanCharsClean(s);
  }

  lemma DegreesScan(s: string)
    requires s == "20 °C"
    ensures AlreadyClean(s)
    ensures FindTrouble(s, 0) == None && FindDigit(s, 0) == Some(0)
    ensures CharIsSymbol(T, s, 3)
  {
    CleanCharsAll(s, 0);
    CleanCharsClean(s);
  }

  lemma FahrenheitScan(s: string)
    requires s == "20 F"
    ensures AlreadyClean(s)
    ensures FindTrouble(s, 0) == None && FindDigit(s, 0) == Some(0)
    ensures CharIsSymbol(T, s, 3)
  {
    CleanCharsAll(s, 0);
    CleanCharsClean(s);
  }

  /** `format_tex` of "50 %", "20 °C" and "20 F" puts a `~` before the unit: a
      symbol, `°` before a letter, and a single capital are all units. */
  lemma ShortUnits(s: string)
    requires ShortUnit(s)
    ensures AlreadyClean(s)
    ensures Spacing(T, Latex, false, s) == s[2 := '~']
  {
    ShortUnitScan(s);
    NumbersOnly(T, Latex, false, s);
    assert NumberFrom(T, '~', s, 0, false) == NumberFrom(T, '~', s, 1, true);
    assert NumberFrom(T, '~', s, 1, true) == NumberFrom(T, '~', s, 2, true);
    assert NumberFrom(T, '~', s, 2, true) == NumberFrom(T, '~', s[2 := '~'], 3, true);
    if |s| == 5 {
      assert NumberFrom(T, '~', s[2 := '~'], 3, true) == NumberFrom(T, '~', s[2 := '~'], 4, false);
    }
  }

  lemma BallesScan()
    ensures AlreadyClean("20 BALLES")
    ensures FindTrouble("20 BALLES", 0) == None && FindDigit("20 BALLES", 0) == Some(0)
  {
    CleanCharsClean("20 BALLES");
  }

  /** "BALLES" is too long for a currency code. */
  lemma BallesNotCurrency()
    ensures !CharIsSymbol(T, "20 BALLES", 3)
  {
    assert FindAlphabetic("20 BALLES", 3) == Some(3);
    assert FindWhitespace("20 BALLES", 3) == None;
    assert GetNextWord("20 BALLES", 3) == "BALLES";
  }

  /** `format_tex("20 BALLES")` changes nothing. */
  lemma TwentyBalles(s: string)
    requires s == "20 BALLES"
    ensures AlreadyClean(s)
    ensures Spacing(T, Latex, false, s) == s
  {
    BallesScan();
    BallesNotCurrency();
    NumbersOnly(T, Latex, false, s);
    assert NumberFrom(T, '~', s, 0, false) == NumberFrom(T, '~', s, 1, true);
    assert NumberFrom(T, '~', s, 1, true) == NumberFrom(T, '~', s, 2, true);
    assert NumberFrom(T, '~', s, 2, true) == NumberFrom(T, '~', s, 3, true);
    assert NumberFrom(T, '~', s, 3, true) == NumberFrom(T, '~', s, 4, false);
    assert NumberFrom(T, '~', s, 4, false) == NumberFrom(T, '~', s, 5, false);
    assert NumberFrom(T, '~', s, 5, false) == NumberFrom(T, '~', s, 6, false);
    assert NumberFrom(T, '~', s, 6, false) == NumberFrom(T, '~', s, 7, false);
    assert NumberFrom(T, '~', s, 7, false) == NumberFrom(T, '~', s, 8, false);
  }

  // ---------------------------------------------------------------------------
  // Guillemets (src/lib/french.rs:500-533, src/french.rs:198-230)
  // ---------------------------------------------------------------------------

  lemma UnTestClean()
    ensures AlreadyClean("« Un test »")
  {
    CleanCharsClean("« Un test »");
  }

  lemma UnTestScan()
    ensures FindTrouble("« Un test »", 0) == Some(0) && FindDigit("« Un test »", 0) == None
    ensures IdleRange("«~Un test~»", 1, 10)
  {
  }

  lemma UnTestStep()
    ensures PunctuationStep(T, TexMarks, false, "« Un test »", 0) == "«~Un test~»"
  {
    assert FindNext("« Un test »", ClosingGuillemet, 0) == Some(10);
    assert "« Un test »"[9 := '~'][1 := '~'] == "«~Un test~»";
  }

  /** `format_tex("« Un test »")` is `«~Un test~»`: a quote at the start of the text
      gets no-break spaces on both sides. */
  lemma UnTest(s: string, r: string)
    requires s == "« Un test »" && r == "«~Un test~»"
    ensures AlreadyClean(s)
    ensures Spacing(T, Latex, false, s) == r
  {
    UnTestClean();
    UnTestScan();
    UnTestStep();
    PunctuationOnly(T, Latex, false, s, 0);
    Hop(T, TexMarks, false, s, 0, r);
    SkipIdle(T, TexMarks, false, r, 1, 10);
  }

  lemma UnTestOpenClean()
    ensures AlreadyClean("« Un test")
  {
    CleanCharsClean("« Un test");
  }

  lemma UnTestOpenScan()
    ensures FindTrouble("« Un test", 0) == Some(0) && FindDigit("« Un test", 0) == None
    ensures IdleRange("«~Un test", 1, 8)
  {
  }

  lemma UnTestOpenStep()
    ensures PunctuationStep(T, TexMarks, false, "« Un test", 0) == "«~Un test"
  {
    assert FindNext("« Un test", ClosingGuillemet, 0) == None;
    assert "« Un test"[1 := '~'] == "«~Un test";
  }

  /** `format_tex("« Un test")` is `«~Un test`: without a closing guillemet, only the
      space after the opening one. */
  lemma UnTestOpen(s: string, r: string)
    requires s == "« Un test" && r == "«~Un test"
    ensures AlreadyClean(s)
    ensures Spacing(T, Latex, false, s) == r
  {
    UnTestOpenClean();
    UnTestOpenScan();
    UnTestOpenStep();
    PunctuationOnly(T, Latex, false, s, 0);
    Hop(T, TexMarks, false, s, 0, r);
    SkipIdle(T, TexMarks, false, r, 1, 8);
  }

  lemma UnTestCloseScan()
    ensures AlreadyClean("Un test »")
    ensures FindTrouble("Un test »", 0) == Some(8) && FindDigit("Un test »", 0) == None
  {
    CleanCharsClean("Un test »");
  }

  lemma UnTestCloseStep()
    ensures PunctuationStep(T, TexMarks, false, "Un test »", 7) == "Un test~»"
  {
    assert "Un test »"[7 := '~'] == "Un test~»";
  }

  /** `format_tex("Un test »")` is `Un test~»`. */
  lemma UnTestClose(s: string, r: string)
    requires s == "Un test »" && r == "Un test~»"
    ensures AlreadyClean(s)
    ensures Spacing(T, Latex, false, s) == r
  {
    UnTestCloseScan();
    UnTestCloseStep();
    PunctuationOnly(T, Latex, false, s, 8);
    Hop(T, TexMarks, false, s, 7, r);
  }

  lemma OuiClean()
    ensures AlreadyClean("Il dit « oui »")
  {
    assert CleanChars("Il dit « oui »", 7);
    CleanCharsClean("Il dit « oui »");
  }

  lemma OuiScan()
    ensures FindTrouble("Il dit « oui »", 0) == Some(7) && FindDigit("Il dit « oui »", 0) == None
    ensures IdleRange("Il dit « oui »", 6, 7)
  {
  }

  lemma OuiNarrow()
    ensures PunctuationStep(T, UnicodeMarks, false, "Il dit « oui »", 7) == "Il dit «\U{202F}oui\U{202F}»"
    ensures IdleRange("Il dit «\U{202F}oui\U{202F}»", 8, 13)
  {
    assert FindNext("Il dit « oui »", ClosingGuillemet, 7) == Some(13);
    assert "Il dit « oui »"[12 := '\U{202F}'][8 := '\U{202F}'] == "Il dit «\U{202F}oui\U{202F}»";
  }

  lemma OuiNoBreak()
    ensures PunctuationStep(LT, UnicodeMarks, true, "Il dit « oui »", 7) == "Il dit «\U{00A0}oui\U{00A0}»"
    ensures IdleRange("Il dit «\U{00A0}oui\U{00A0}»", 8, 13)
  {
    assert FindNext("Il dit « oui »", ClosingGuillemet, 7) == Some(13);
    assert "Il dit « oui »"[12 := '\U{00A0}'][8 := '\U{00A0}'] == "Il dit «\U{00A0}oui\U{00A0}»";
  }

  /** `format("Il dit « oui »")` puts narrow no-break spaces inside a short quote. */
  lemma OuiCurrent(s: string, r: string)
    requires s == "Il dit « oui »" && r == "Il dit «\U{202F}oui\U{202F}»"
    ensures AlreadyClean(s)
    ensures Spacing(T, Default, false, s) == r
  {
    OuiClean();
    OuiScan();
    OuiNarrow();
    PunctuationOnly(T, Default, false, s, 7);
    SkipIdle(T, UnicodeMarks, false, s, 6, 7);
    Hop(T, UnicodeMarks, false, s, 7, r);
    SkipIdle(T, UnicodeMarks, false, r, 8, 13);
  }

  lemma CourtScan(s: string)
    requires s == "test « court »"
    ensures AlreadyClean(s)
    ensures FindTrouble(s, 0) == Some(5) && FindDigit(s, 0) == None
    ensures IdleRange(s, 4, 5)
  {
    CleanCharsAll(s, 0);
    CleanCharsClean(s);
    assert IsTrouble(s[5]) && forall k :: 0 <= k < 5 ==> !IsTrouble(s[k]);
    assert forall k :: 0 <= k < |s| ==> !IsDigit(s[k]);
  }

  lemma CourtStep(s: string, r: string)
    requires s == "test « court »" && r == "test «\U{202F}court\U{202F}»"
    ensures PunctuationStep(T, UnicodeMarks, false, s, 5) == r
    ensures IdleRange(r, 6, 13)
  {
    assert s[13] == ClosingGuillemet && forall k :: 5 <= k < 13 ==> s[k] != ClosingGuillemet;
    assert FindNext(s, ClosingGuillemet, 5) == Some(13);
    assert s[12 := '\U{202F}'][6 := '\U{202F}'] == r;
    IdleAll(r, 6, 13);
  }

  /** `french_quotes_4`: `format("test « court »")` puts narrow no-break spaces
      inside the short quote. */
  lemma Court(s: string, r: string)
    requires s == "test « court »" && r == "test «\U{202F}court\U{202F}»"
    ensures AlreadyClean(s)
    ensures Spacing(T, Default, false, s) == r
  {
    CourtScan(s);
    CourtStep(s, r);
    PunctuationOnly(T, Default, false, s, 5);
    SkipIdle(T, UnicodeMarks, false, s, 4, 5);
    Hop(T, UnicodeMarks, false, s, 5, r);
    SkipIdle(T, UnicodeMarks, false, r, 6, 13);
  }

  lemma LongCleanHead(s: string)
    requires s == "test « beaucoup, beaucoup plus long »"
    ensures forall k :: 0 <= k < 18 ==> CleanCharAt(s, k)
  {
  }

  lemma LongCleanTail(s: string)
    requires s == "test « beaucoup, beaucoup plus long »"
    ensures forall k :: 18 <= k < |s| ==> CleanCharAt(s, k)
  {
  }

  lemma LongClean(s: string)
    requires s == "test « beaucoup, beaucoup plus long »"
    ensures AlreadyClean(s)
  {
    LongCleanTail(s);
    CleanCharsAll(s, 18);
    LongCleanHead(s);
    CleanCharsUpTo(s, 0, 18);
    CleanCharsClean(s);
  }

  lemma LongScan(s: string)
    requires s == "test « beaucoup, beaucoup plus long »"
    ensures FindTrouble(s, 0) == Some(5) && FindDigit(s, 0) == None
    ensures IdleRange(s, 4, 5)
  {
    assert IsTrouble(s[5]) && forall k :: 0 <= k < 5 ==> !IsTrouble(s[k]);
    LongNoDigit(s);
  }

  lemma LongNoDigit(s: string)
    requires s == "test « beaucoup, beaucoup plus long »"
    ensures FindDigit(s, 0) == None
  {
    assert forall k :: 0 <= k < |s| ==> !IsDigit(s[k]);
  }

  lemma LongClosing(s: string)
    requires s == "test « beaucoup, beaucoup plus long »"
    ensures FindNext(s, ClosingGuillemet, 5) == Some(36)
  {
    assert s[36] == ClosingGuillemet && forall k :: 5 <= k < 36 ==> s[k] != ClosingGuillemet;
  }

  /** A `«` whose quote runs past the threshold gets no-break spaces on both sides. */
  lemma OpeningPastThreshold(t: Thresholds, m: Marks, chars: string, i: nat, j: nat)
    requires i + 1 < |chars| && chars[i] == OpeningGuillemet && IsSpaceLike(chars[i + 1])
    requires FindNext(chars, ClosingGuillemet, i) == Some(j) && IsWhitespace(chars[j - 1])
    requires j - i > t.quote
    ensures PunctuationStep(t, m, false, chars, i) == chars[j - 1 := m.nb][i + 1 := m.nb]
  {
  }

  lemma LongStep(s: string, r: string)
    requires s == "test « beaucoup, beaucoup plus long »"
    requires r == "test «\U{00A0}beaucoup, beaucoup plus long\U{00A0}»"
    requires FindNext(s, ClosingGuillemet, 5) == Some(36)
    ensures PunctuationStep(T, UnicodeMarks, false, s, 5) == r
  {
    OpeningPastThreshold(T, UnicodeMarks, s, 5, 36);
    assert |r| == 37;
    forall k | 0 <= k < 37
      ensures s[35 := '\U{00A0}'][6 := '\U{00A0}'][k] == r[k]
    {
    }
  }

  lemma LongIdle(r: string)
    requires r == "test «\U{00A0}beaucoup, beaucoup plus long\U{00A0}»"
    ensures IdleRange(r, 6, 36)
  {
    IdleAll(r, 6, 36);
  }

  /** `french_quotes_5`: `format("test « beaucoup, beaucoup plus long »")` puts
      no-break spaces inside a quote longer than the threshold. */
  lemma Long(s: string, r: string)
    requires s == "test « beaucoup, beaucoup plus long »"
    requires r == "test «\U{00A0}beaucoup, beaucoup plus long\U{00A0}»"
    ensures AlreadyClean(s)
    ensures Spacing(T, Default, false, s) == r
  {
    LongClean(s);
    LongScan(s);
    LongClosing(s);
    LongStep(s, r);
    LongIdle(r);
    PunctuationOnly(T, Default, false, s, 5);
    SkipIdle(T, UnicodeMarks, false, s, 4, 5);
    Hop(T, UnicodeMarks, false, s, 5, r);
    SkipIdle(T, UnicodeMarks, false, r, 6, 36);
  }

  /** The first formatter spaces the same quote with no-break spaces, because its `»`
      is the last character of the text. */
  lemma OuiLegacy(s: string, r: string)
    requires s == "Il dit « oui »" && r == "Il dit «\U{00A0}oui\U{00A0}»"
    ensures LegacyFrench.Format(LegacyFrench.New(), s) == r
  {
    OuiClean();
    OuiScan();
    OuiNoBreak();
    CollapseUnchangedWithoutRun(s);
    PunctuationOnly(LT, Default, true, s, 7);
    SkipIdle(LT, UnicodeMarks, true, s, 6, 7);
    Hop(LT, UnicodeMarks, true, s, 7, r);
    SkipIdle(LT, UnicodeMarks, true, r, 8, 13);
  }

  // ---------------------------------------------------------------------------
  // Dashes (src/lib/french.rs:535-553)
  // ---------------------------------------------------------------------------

  lemma SiCleanHead(s: string)
    requires s == "pas si simple – si ?"
    ensures forall k :: 0 <= k < 10 ==> CleanCharAt(s, k)
  {
  }

  lemma SiCleanTail(s: string)
    requires s == "pas si simple – si ?"
    ensures forall k :: 10 <= k < |s| ==> CleanCharAt(s, k)
  {
  }

  lemma SiClean()
    ensures AlreadyClean("pas si simple – si ?")
  {
    var s := "pas si simple – si ?";
    SiCleanTail(s);
    CleanCharsAll(s, 10);
    SiCleanHead(s);
    CleanCharsUpTo(s, 0, 10);
    CleanCharsClean(s);
  }

  lemma SiTrouble()
    ensures FindTrouble("pas si simple – si ?", 0) == Some(14)
    ensures IdleRange("pas si simple – si ?", 13, 14)
  {
    SiTroubleAt("pas si simple – si ?");
  }

  lemma SiTroubleAt(s: string)
    requires s == "pas si simple – si ?"
    ensures FindTrouble(s, 0) == Some(14)
  {
    assert IsTrouble(s[14]) && forall k :: 0 <= k < 14 ==> !IsTrouble(s[k]);
  }

  lemma SiDigit()
    ensures FindDigit("pas si simple – si ?", 0) == None
  {
    assert FindDigit("pas si simple – si ?", 15) == None;
    assert FindDigit("pas si simple – si ?", 10) == None;
    assert FindDigit("pas si simple – si ?", 5) == None;
  }

  lemma SiNoClosingDash()
    ensures FindClosingDash(T, "pas si simple – si ?", 15) == None
  {
    assert !IsNextCharUppercase("pas si simple – si ?", 20);
    assert ClosingDashFrom(T, "pas si simple – si ?", 19, []) == None;
    assert ClosingDashFrom(T, "pas si simple – si ?", 18, []) == None;
    assert ClosingDashFrom(T, "pas si simple – si ?", 17, ['s']) == None;
    assert ClosingDashFrom(T, "pas si simple – si ?", 16, []) == None;
  }

  lemma SiWrites()
    ensures PunctuationStep(T, TexMarks, false, "pas si simple – si ?", 14) == "pas si simple –~si ?"
    ensures IdleRange("pas si simple –~si ?", 15, 18)
    ensures PunctuationStep(T, TexMarks, false, "pas si simple –~si ?", 18) == "pas si simple –~si~?"
  {
    SiNoClosingDash();
    assert "pas si simple – si ?"[15 := '~'] == "pas si simple –~si ?";
    assert "pas si simple –~si ?"[18 := '~'] == "pas si simple –~si~?";
  }

  /** The end of `french_dashes_2`, "pas si simple – si ?": an incise that never
      closes gets a no-break space after its dash, and the question mark a narrow one
      before it. */
  lemma SiSimple(s: string, s1: string, r: string)
    requires s == "pas si simple – si ?" && s1 == "pas si simple –~si ?" && r == "pas si simple –~si~?"
    ensures AlreadyClean(s)
    ensures Spacing(T, Latex, false, s) == r
  {
    SiClean();
    SiTrouble();
    SiDigit();
    SiWrites();
    PunctuationOnly(T, Latex, false, s, 14);
    SkipIdle(T, TexMarks, false, s, 13, 14);
    Hop(T, TexMarks, false, s, 14, s1);
    SkipIdle(T, TexMarks, false, s1, 15, 18);
    Hop(T, TexMarks, false, s1, 18, r);
  }

  lemma InciseClean()
    ensures AlreadyClean("un – deux – trois")
  {
    assert CleanChars("un – deux – trois", 8);
    CleanCharsClean("un – deux – trois");
  }

  lemma InciseScan(v: string)
    requires v == "un – deux – trois"
    ensures FindTrouble(v, 0) == Some(3) && FindDigit(v, 0) == None
    ensures IdleRange(v, 2, 3)
  {
    assert IsTrouble(v[3]) && forall k :: 0 <= k < 3 ==> !IsTrouble(v[k]);
    InciseNoDigit(v);
  }

  lemma InciseNoDigit(v: string)
    requires v == "un – deux – trois"
    ensures FindDigit(v, 0) == None
  {
    assert forall k :: 0 <= k < |v| ==> !IsDigit(v[k]);
  }

  lemma InciseClosingDash(v: string)
    requires v == "un – deux – trois"
    ensures FindClosingDash(T, v, 4) == Some(9)
  {
    ScanSpace(T, v, 4, []);
    InciseDashWord(v);
    InciseDashEnd(v);
  }

  lemma InciseDashWord(v: string)
    requires v == "un – deux – trois"
    ensures ClosingDashFrom(T, v, 5, []) == ClosingDashFrom(T, v, 10, [])
  {
    assert OrdinaryRun(v, 5, 9);
    ScanWord(T, v, 5, 9, []);
    ScanSpace(T, v, 9, [] + v[5..9]);
  }

  lemma InciseDashEnd(v: string)
    requires v == "un – deux – trois"
    ensures ClosingDashFrom(T, v, 10, []) == Some(9)
  {
  }

  lemma InciseOpening()
    ensures PunctuationStep(T, TexMarks, false, "un – deux – trois", 3) == "un –~deux~– trois"
  {
    InciseClosingDash("un – deux – trois");
    assert "un – deux – trois"[9 := '~'][4 := '~'] == "un –~deux~– trois";
  }

  lemma InciseClosing()
    ensures IdleRange("un –~deux~– trois", 4, 10)
    ensures PunctuationStep(T, TexMarks, false, "un –~deux~– trois", 10) == "un –~deux~– trois"
    ensures IdleRange("un –~deux~– trois", 11, 16)
  {
    assert "un –~deux~– trois"[11 := ' '] == "un –~deux~– trois";
  }

  /** `french_dashes_1` in short, "un – deux – trois": the dash opening an incise and
      the one closing it get no-break spaces on their inner sides; the space after the
      closing dash stays breakable. */
  lemma InciseSpaced(s: string, r: string)
    requires s == "un – deux – trois" && r == "un –~deux~– trois"
    ensures AlreadyClean(s)
    ensures Spacing(T, Latex, false, s) == r
  {
    InciseClean();
    InciseScan(s);
    InciseOpening();
    InciseClosing();
    PunctuationOnly(T, Latex, false, s, 3);
    SkipIdle(T, TexMarks, false, s, 2, 3);
    Hop(T, TexMarks, false, s, 3, r);
    SkipIdle(T, TexMarks, false, r, 4, 10);
    Hop(T, TexMarks, false, r, 10, r);
    SkipIdle(T, TexMarks, false, r, 11, 16);
  }

  /** A character the closing-dash scan only appends to its word. */
  predicate Ordinary(c: char) {
    !(c == '!' || c == '?' || c == '.' || IsDashChar(c) || IsWhitespace(c))
  }

  /** Only ordinary characters in `v[j..e]`, checked position by position. */
  predicate OrdinaryRun(v: string, j: nat, e: nat)
    requires e <= |v|
    decreases e - j
  {
    j >= e || (Ordinary(v[j]) && OrdinaryRun(v, j + 1, e))
  }

  /** The closing-dash scan over a run of ordinary characters appends them to the word. */
  lemma {:induction false} ScanWord(t: Thresholds, v: string, j: nat, e: nat, w: string)
    requires 1 <= j <= e <= |v| && OrdinaryRun(v, j, e)
    ensures ClosingDashFrom(t, v, j, w) == ClosingDashFrom(t, v, e, w + v[j..e])
    decreases e - j
  {
    if j < e {
      assert ClosingDashFrom(t, v, j, w) == ClosingDashFrom(t, v, j + 1, w + [v[j]]);
      ScanWord(t, v, j + 1, e, w + [v[j]]);
      assert (w + [v[j]]) + v[j + 1..e] == w + v[j..e];
    } else {
      assert w + v[j..e] == w;
    }
  }

  /** The closing-dash scan starts a new word after whitespace. */
  lemma ScanSpace(t: Thresholds, v: string, j: nat, w: string)
    requires 1 <= j < |v| && IsWhitespace(v[j])
    ensures ClosingDashFrom(t, v, j, w) == ClosingDashFrom(t, v, j + 1, [])
  {
    CaseFacts(v[j]);
  }

  /** A `.` before a capital, after a real word, ends the closing-dash scan. */
  lemma ScanDotStops(t: Thresholds, v: string, j: nat, w: string)
    requires 1 <= j < |v| && v[j] == '.' && IsNextCharUppercase(v, j + 1) && RealWord(t, w)
    ensures ClosingDashFrom(t, v, j, w) == None
  {
  }

  /** A `.` after an abbreviation does not stop the closing-dash scan. */
  lemma ScanDotGoesOn(t: Thresholds, v: string, j: nat, w: string)
    requires 1 <= j < |v| && v[j] == '.' && !RealWord(t, w)
    ensures ClosingDashFrom(t, v, j, w) == ClosingDashFrom(t, v, j + 1, w)
  {
  }

  /** A space, then a capital. */
  lemma NextCapital(v: string, j: nat)
    requires j + 1 < |v| && v[j] == ' ' && v[j + 1] == 'M'
    ensures IsNextCharUppercase(v, j)
  {
    assert IsWhitespace(' ') && IsUppercase('M');
    assert IsNextCharUppercase(v, j + 1);
  }

  /** The scan reaches "mal." with a fresh word and stops there. */
  lemma MalStops(v: string)
    requires v == "– mal. Mais – si"
    ensures ClosingDashFrom(T, v, 2, []) == None
  {
    assert OrdinaryRun(v, 2, 5);
    ScanWord(T, v, 2, 5, []);
    assert [] + v[2..5] == "mal";
    assert v[6] == ' ' && v[7] == 'M';
    NextCapital(v, 6);
    ScanDotStops(T, v, 5, "mal");
  }

  /** From french_dashes_2, "– mal. Mais – si": the `.` after the lower-case word
      "mal", before the capital of "Mais", ends the sentence, so the incise opened by
      the first dash has no closing dash although a spaced one follows. */
  lemma SentenceEndsIncise(v: string)
    requires v == "– mal. Mais – si"
    ensures SpacedDashAt(v, 12)
    ensures FindClosingDash(T, v, 1) == None
  {
    MalStops(v);
    ScanSpace(T, v, 1, []);
  }

  /** After "M.", the scan goes on to the dash after "Dupont". */
  lemma DupontCloses(v: string)
    requires v == "– M. Dupont – si"
    ensures ClosingDashFrom(T, v, 3, "M") == Some(11)
  {
    assert OrdinaryRun(v, 5, 11);
    assert ClosingDashFrom(T, v, 12, [] + v[5..11]) == Some(11);
    ScanWord(T, v, 5, 11, []);
    ScanSpace(T, v, 11, [] + v[5..11]);
    ScanSpace(T, v, 4, "M");
    assert Utf8Length("M") == 1;
    ScanDotGoesOn(T, v, 3, "M");
  }

  /** The same incise around the abbreviation "M. Dupont": an upper-case word of one
      byte before the `.` is no sentence end, and the next spaced dash closes it. */
  lemma AbbreviationKeepsIncise(v: string)
    requires v == "– M. Dupont – si"
    ensures FindClosingDash(T, v, 1) == Some(11)
  {
    DupontCloses(v);
    assert OrdinaryRun(v, 2, 3);
    assert [] + v[2..3] == "M";
    ScanWord(T, v, 2, 3, []);
    ScanSpace(T, v, 1, []);
  }

  // ---------------------------------------------------------------------------
  // The examples of the documentation (src/lib/french.rs:40-49, 193-201)
  // ---------------------------------------------------------------------------

  /** A stretch of positions where no step writes. */
  lemma {:induction false} IdleAll(c: string, i: nat, j: nat)
    requires i <= j < |c| && forall k :: i <= k < j ==> Idle(c, k)
    ensures IdleRange(c, i, j)
    decreases j - i
  {
    if i < j {
      IdleAll(c, i + 1, j);
    }
  }

  /** The position-by-position check, one position at a time. */
  predicate CleanCharAt(s: string, i: nat)
    requires i < |s|
  {
    s[i] != '.' && !DoubleDashAt(s, i) && s[i] != '<' && s[i] != '>' && !IsStraightQuote(s[i]) && !RunAt(s, i)
  }

  /** `CleanChars` from `i`, given it from `j` and every position in between. */
  lemma {:induction false} CleanCharsUpTo(s: string, i: nat, j: nat)
    requires i <= j <= |s| && CleanChars(s, j)
    requires forall k :: i <= k < j ==> CleanCharAt(s, k)
    ensures CleanChars(s, i)
    decreases j - i
  {
    if i < j {
      assert CleanCharAt(s, i);
      CleanCharsUpTo(s, i + 1, j);
    }
  }

  lemma {:induction false} CleanCharsAll(s: string, i: nat)
    requires i <= |s| && forall k :: i <= k < |s| ==> CleanCharAt(s, k)
    ensures CleanChars(s, i)
    decreases |s| - i
  {
    if i < |s| {
      assert CleanCharAt(s, i);
      CleanCharsAll(s, i + 1);
    }
  }

  lemma EstCeClean(s: string)
    requires s == "« Est-ce bien formaté ? »"
    ensures AlreadyClean(s)
  {
    CleanCharsAll(s, 0);
    CleanCharsClean(s);
  }

  lemma EstCeScan(s: string)
    requires s == "« Est-ce bien formaté ? »"
    ensures FindTrouble(s, 0) == Some(0) && FindDigit(s, 0) == None
    ensures FindNext(s, ClosingGuillemet, 0) == Some(24)
  {
    assert s[24] == ClosingGuillemet;
    assert forall k :: 0 <= k < 24 ==> s[k] != ClosingGuillemet;
  }

  lemma EstCeIdle(c1: string, r: string)
    requires c1 == "«~Est-ce bien formaté ?~»" && r == "«~Est-ce bien formaté~?~»"
    ensures IdleRange(c1, 1, 21) && IdleRange(r, 22, 24)
  {
    IdleAll(c1, 1, 21);
    IdleAll(r, 22, 24);
  }

  lemma EstCeOpen(s: string, c1: string)
    requires s == "« Est-ce bien formaté ? »" && c1 == "«~Est-ce bien formaté ?~»"
    ensures PunctuationStep(T, TexMarks, false, s, 0) == c1
  {
    EstCeScan(s);
    assert |s| == 25 && |c1| == 25;
    forall k | 0 <= k < 25
      ensures s[23 := '~'][1 := '~'][k] == c1[k]
    {
    }
  }

  lemma EstCeQuestion(c1: string, r: string)
    requires c1 == "«~Est-ce bien formaté ?~»" && r == "«~Est-ce bien formaté~?~»"
    ensures PunctuationStep(T, TexMarks, false, c1, 21) == r
  {
    assert |c1| == 25 && |r| == 25;
    forall k | 0 <= k < 25
      ensures c1[21 := '~'][k] == r[k]
    {
    }
  }

  /** `format_tex("« Est-ce bien formaté ? »")` is `«~Est-ce bien formaté~?~»`: the
      text is already clean, the quote at the start gets no-break spaces on both
      sides, and the question mark a (narrow) no-break space. */
  lemma EstCe(s: string, r: string)
    requires s == "« Est-ce bien formaté ? »" && r == "«~Est-ce bien formaté~?~»"
    ensures AlreadyClean(s)
    ensures Spacing(T, Latex, false, s) == r
  {
    var c1 := "«~Est-ce bien formaté ?~»";
    EstCeClean(s);
    EstCeScan(s);
    EstCeOpen(s, c1);
    EstCeQuestion(c1, r);
    EstCeIdle(c1, r);
    PunctuationOnly(T, Latex, false, s, 0);
    Hop(T, TexMarks, false, s, 0, c1);
    SkipIdle(T, TexMarks, false, c1, 1, 21);
    Hop(T, TexMarks, false, c1, 21, r);
    SkipIdle(T, TexMarks, false, r, 22, 24);
  }

  /** The text of the formatter's first example, with its quoted word and elision. */
  const Formater: string := "Un texte à 'formater', n'est-ce pas ?"

  /** The shape of that text: a word in single quotes from 11 to 20 after a space,
      an elision at 24 between two letters, and no other straight quote. */
  predicate FormaterShape(s: string) {
    && |s| == 37 && s[10] == ' ' && s[11] == '\'' && IsAlphanumeric(s[12])
    && s[20] == '\'' && !IsWhitespace(s[19]) && !IsAlphanumeric(s[21])
    && s[24] == '\'' && IsAlphanumeric(s[23]) && IsAlphanumeric(s[25])
    && (forall k :: 0 <= k < 11 ==> !IsStraightQuote(s[k]))
    && (forall k :: 12 <= k < 20 ==> !IsStraightQuote(s[k]))
    && (forall k :: 21 <= k < 37 && k != 24 ==> !IsStraightQuote(s[k]))
  }

  /** The look-ahead of the quote before the word claims the one after it. */
  lemma FormaterLook(s: string)
    requires FormaterShape(s)
    ensures LookState(s, 12) == Look(s[20 := RightSingle], Some(20))
    ensures forall k :: 0 <= k < 11 ==> QuoteAt(s, k) == s[k]
    ensures QuoteAt(s, 11) == LeftSingle
  {
    QuoteFreeDecisions(s, 11);
    assert forall k :: 12 <= k < 20 ==> !CloserAt(s, k);
    assert CloserAt(s, 20);
    assert FindCloser(s, 12) == Some(20);
    assert Rising(s, 11);
    assert LooksAhead(s, s, 11);
  }

  /** After that claim only the elision is left, and it looks nowhere. */
  lemma FormaterRest(s: string)
    requires FormaterShape(s)
    requires LookState(s, 12) == Look(s[20 := RightSingle], Some(20))
    ensures forall k :: 12 <= k < 24 ==> QuoteAt(s, k) == s[20 := RightSingle][k]
    ensures forall k :: 25 <= k < 37 ==> QuoteAt(s, k) == s[k]
    ensures QuoteAt(s, 24) == RightSingle
  {
    var st := Look(s[20 := RightSingle], Some(20));
    forall k | 12 <= k < 37
      ensures !LooksAhead(s, st.buf, k)
    {
      if k == 24 {
        assert PrevClass(s, k) == Alphanumeric && NextClass(s, k) == Alphanumeric;
      }
    }
    LookSteady(s, st, 12, 37);
    CopiedSegment(s, st, 12, 24);
    CopiedSegment(s, st, 25, 37);
    assert PrevClass(s, 24) == Alphanumeric && NextClass(s, 24) == Alphanumeric;
  }

  /** The quotes pass on a text of that shape: an opening and a closing quote around
      the word, and an apostrophe at the elision. */
  lemma FormaterQuotes(s: string)
    requires FormaterShape(s)
    ensures QuotesSpec(s) == s[11 := LeftSingle][20 := RightSingle][24 := RightSingle]
  {
    FormaterLook(s);
    FormaterRest(s);
  }

  lemma FormaterCollapse(s: string)
    requires s == Formater
    ensures Collapse(s) == s
  {
    assert forall k: nat :: !RunAt(s, k);
    CollapseUnchangedWithoutRun(s);
  }

  lemma FormaterUpdate(s: string, c: string)
    requires s == Formater && c == "Un texte à \U{2018}formater\U{2019}, n\U{2019}est-ce pas ?"
    ensures s[11 := LeftSingle][20 := RightSingle][24 := RightSingle] == c
  {
    assert |c| == 37;
    forall k | 0 <= k < 37
      ensures s[11 := LeftSingle][20 := RightSingle][24 := RightSingle][k] == c[k]
    {
    }
  }

  lemma FormaterSpacing(c: string, r: string)
    requires c == "Un texte à \U{2018}formater\U{2019}, n\U{2019}est-ce pas ?"
    requires r == "Un texte à \U{2018}formater\U{2019}, n\U{2019}est-ce pas~?"
    ensures Spacing(T, Latex, false, c) == r
  {
    FormaterTrouble(c);
    FormaterNoDigit(c);
    PunctuationOnly(T, Latex, false, c, 36);
    FormaterTilde(c, r);
    Hop(T, TexMarks, false, c, 35, r);
  }

  lemma FormaterTrouble(c: string)
    requires c == "Un texte à \U{2018}formater\U{2019}, n\U{2019}est-ce pas ?"
    ensures FindTrouble(c, 0) == Some(36)
  {
    assert IsTrouble(c[36]) && forall k :: 0 <= k < 36 ==> !IsTrouble(c[k]);
  }

  lemma FormaterNoDigit(c: string)
    requires c == "Un texte à \U{2018}formater\U{2019}, n\U{2019}est-ce pas ?"
    ensures FindDigit(c, 0) == None
  {
    assert forall k :: 0 <= k < 37 ==> !IsDigit(c[k]);
  }

  lemma FormaterTilde(c: string, r: string)
    requires c == "Un texte à \U{2018}formater\U{2019}, n\U{2019}est-ce pas ?"
    requires r == "Un texte à \U{2018}formater\U{2019}, n\U{2019}est-ce pas~?"
    ensures PunctuationStep(T, TexMarks, false, c, 35) == r
  {
    assert c[35 := '~'] == r;
  }

  lemma FormaterQuoteFreeHead(s: string)
    requires s == Formater
    ensures forall k :: 0 <= k < 11 ==> !IsStraightQuote(s[k])
  {
  }

  lemma FormaterQuoteFreeWord(s: string)
    requires s == Formater
    ensures forall k :: 12 <= k < 20 ==> !IsStraightQuote(s[k])
  {
  }

  lemma FormaterQuoteFreeTail(s: string)
    requires s == Formater
    ensures forall k :: 21 <= k < 37 && k != 24 ==> !IsStraightQuote(s[k])
  {
  }

  lemma FormaterShaped(s: string)
    requires s == Formater
    ensures FormaterShape(s)
  {
    FormaterQuoteFreeHead(s);
    FormaterQuoteFreeWord(s);
    FormaterQuoteFreeTail(s);
  }

  /** With the ellipsis pass off, only the quotes pass changes the text. */
  lemma FormaterCleaning(s: string, c: string)
    requires s == Formater && c == "Un texte à \U{2018}formater\U{2019}, n\U{2019}est-ce pas ?"
    ensures Cleaning(French.SetTypographicEllipsis(French.New(), false), s) == c
  {
    var f := French.SetTypographicEllipsis(French.New(), false);
    FormaterCollapse(s);
    assert Ligatures(f, s) == s;
    FormaterShaped(s);
    FormaterQuotes(s);
    FormaterUpdate(s, c);
  }

  /** The formatter's first example: with the ellipsis pass off, `format_tex` of
      `Un texte à 'formater', n'est-ce pas ?` is
      `Un texte à ‘formater’, n’est-ce pas~?`. */
  lemma FormaterExample(s: string, r: string)
    requires s == Formater && r == "Un texte à \U{2018}formater\U{2019}, n\U{2019}est-ce pas~?"
    ensures var f := French.SetTypographicEllipsis(French.New(), false);
            f.thresholds == T && Spacing(f.thresholds, Latex, false, Cleaning(f, s)) == r
  {
    var c := "Un texte à \U{2018}formater\U{2019}, n\U{2019}est-ce pas ?";
    FormaterCleaning(s, c);
    FormaterSpacing(c, r);
  }
}
