/**
 * Input/output pairs from the unit tests of src/lib/clean.rs, evaluated on the
 * model: the ellipsis and dash passes.
 */
module CleanExamples {
  import opened Unicode
  import opened Common
  import opened Maybe
  import opened Clean
  import opened CleanQuotes

  /** `ellipsis_0`: three dots at the end become `…`. */
  lemma EllipsisAtEnd()
    ensures Ellipsis("Foo...") == "Foo\U{2026}"
  {
    EllipsisScan("Foo...");
    assert EllipsisFrom("Foo...", 3) == "\U{2026}";
  }

  /** `ellipsis_1`: three dots before a space. */
  lemma EllipsisBeforeSpace()
    ensures Ellipsis("Foo... Bar") == "Foo\U{2026} Bar"
  {
    EllipsisScan("Foo... Bar");
    assert EllipsisFrom("Foo... Bar", 6) == " Bar";
    assert EllipsisFrom("Foo... Bar", 3) == "\U{2026} Bar";
  }

  /** `ellipsis_2`: of four dots, the first three make the ellipsis. */
  lemma EllipsisFourDots()
    ensures Ellipsis("foo....") == "foo\U{2026}."
  {
    EllipsisScan("foo....");
    assert EllipsisFrom("foo....", 6) == ".";
    assert EllipsisFrom("foo....", 3) == "\U{2026}.";
  }

  /** `ellipsis_3`: spaced dots at the end keep their last space breakable. */
  lemma EllipsisSpaced()
    ensures Ellipsis("foo. . . ") == "foo.\U{00A0}.\U{00A0}. "
  {
    EllipsisScan("foo. . . ");
    assert EllipsisFrom("foo. . . ", 3) == NbEllipsis;
  }

  /** `ellipsis_4`: spaced dots followed by a dot make all three spaces no-break. */
  lemma EllipsisSpacedThenDot()
    ensures Ellipsis("foo. . . .") == "foo.\U{00A0}.\U{00A0}.\U{00A0}."
  {
    EllipsisScan("foo. . . .");
    assert EllipsisFrom("foo. . . .", 9) == ".";
    assert EllipsisFrom("foo. . . .", 3) == FullNbEllipsis + ".";
  }

  /** `ellipsis_5`: two dots are left alone. */
  lemma EllipsisTwoDots()
    ensures Ellipsis("foo..") == "foo.."
  {
    assert !EllipsisTriggerAt("foo..", 3);
    assert !EllipsisTriggerAt("foo..", 4);
  }

  /** `dashes_0`: a single dash is left alone. */
  lemma DashesSingle()
    ensures Dashes("foo - bar") == "foo - bar"
  {
  }

  /** `dashes_1`: `--` becomes an en dash. */
  lemma DashesDouble()
    ensures Dashes("foo -- bar") == "foo \U{2013} bar"
  {
    DashesScan("foo -- bar");
    assert DashesFrom("foo -- bar", 6) == " bar";
    assert DashesFrom("foo -- bar", 4) == "\U{2013} bar";
  }

  /** `dashes_2`: `---` becomes an em dash, not an en dash and a dash. */
  lemma DashesTriple()
    ensures Dashes("foo --- bar") == "foo \U{2014} bar"
  {
    DashesScan("foo --- bar");
    assert DashesFrom("foo --- bar", 7) == " bar";
    assert DashesFrom("foo --- bar", 4) == "\U{2014} bar";
  }

  /** `dashes_3`: both ligatures in one text. */
  lemma DashesBoth()
    ensures Dashes("foo --- bar--") == "foo \U{2014} bar\U{2013}"
  {
    DashesScan("foo --- bar--");
    assert DashesFrom("foo --- bar--", 11) == "\U{2013}";
    assert DashesFrom("foo --- bar--", 7) == " bar\U{2013}";
    assert DashesFrom("foo --- bar--", 4) == "\U{2014} bar\U{2013}";
  }

  // ---------------------------------------------------------------------------
  // Quotes
  // ---------------------------------------------------------------------------

  /** Where no quote looks ahead, the look-ahead state stays as it is. */
  lemma {:induction false} LookSteady(s: string, st: Look, i: nat, j: nat)
    requires i <= j <= |s| && LookState(s, i) == st
    requires forall k :: i <= k < j ==> !LooksAhead(s, st.buf, k)
    ensures forall k :: i <= k <= j ==> LookState(s, k) == st
    decreases j - i
  {
    if i < j {
      LookSteady(s, st, i + 1, j);
    }
  }

  /** Positions where the buffer holds no straight quote are copied from it. */
  lemma CopiedSegment(s: string, st: Look, i: nat, j: nat)
    requires i <= j <= |s| && |st.buf| == |s|
    requires forall k :: i <= k < j ==> LookState(s, k) == st && !IsStraightQuote(st.buf[k])
    ensures forall k :: i <= k < j ==> QuoteAt(s, k) == st.buf[k]
  {
  }

  /** A character in single quotes after a space at `i`: `'x'`, where `x` is no
      space and no quote, and the closing quote ends a word. */
  predicate QuotedChar(s: string, i: nat) {
    && 0 < i && i + 2 < |s| && s[i - 1] == ' ' && s[i] == '\'' && !IsWhitespace(s[i + 1])
    && !IsStraightQuote(s[i + 1]) && s[i + 2] == '\'' && (i + 3 == |s| || !IsAlphanumeric(s[i + 3]))
  }

  /** The opening quote of a quoted character looks ahead, claims the closing one,
      and opens when no earlier claimed closer is still ahead. */
  lemma QuotedCharClaims(s: string, st: Look, i: nat)
    requires QuotedChar(s, i) && LookState(s, i) == st
    requires st.buf[i] == '\'' && st.buf[i + 1] == s[i + 1] && st.buf[i + 2] == '\''
    requires i + 3 < |s| ==> st.buf[i + 3] == s[i + 3]
    requires st.closing.None? || st.closing.value < i
    ensures LookState(s, i + 1) == Look(st.buf[i + 2 := RightSingle], Some(i + 2))
    ensures QuoteAt(s, i) == LeftSingle
  {
    assert ClassOf(s[i - 1]) == Whitespace;
    assert !CloserAt(st.buf, i + 1) && CloserAt(st.buf, i + 2);
    assert FindCloser(st.buf, i + 1) == Some(i + 2);
  }

  /** A quoted character at `i` followed by characters that are not quotes up to
      `next`: the opening quote claims the closing one, which is emitted closing,
      and the rest is copied. */
  lemma QuotedCharPhase(s: string, st: Look, i: nat, next: nat)
    requires QuotedChar(s, i) && LookState(s, i) == st && i + 3 <= next <= |s| && (i + 3 < |s| ==> i + 3 < next)
    requires forall k :: i <= k < next ==> st.buf[k] == s[k]
    requires forall k :: i + 3 <= k < next ==> !IsStraightQuote(s[k])
    requires st.closing.None? || st.closing.value < i
    ensures forall k :: i + 1 <= k <= next ==> LookState(s, k) == Look(st.buf[i + 2 := RightSingle], Some(i + 2))
    ensures QuoteAt(s, i) == LeftSingle
    ensures forall k :: i + 1 <= k < next ==> QuoteAt(s, k) == st.buf[i + 2 := RightSingle][k]
  {
    var st' := Look(st.buf[i + 2 := RightSingle], Some(i + 2));
    QuotedCharClaims(s, st, i);
    LookSteady(s, st', i + 1, next);
    CopiedSegment(s, st', i + 1, next);
  }

  /** A text whose first straight quote is at 11 and which holds the three quoted
      characters at 11, 16 and 21, separated by two characters that are not quotes. */
  predicate ThreeQuoted(s: string) {
    && |s| == 24 && QuotedChar(s, 11) && QuotedChar(s, 16) && QuotedChar(s, 21)
    && (forall k :: 0 <= k < 11 ==> !IsStraightQuote(s[k]))
    && !IsStraightQuote(s[14]) && !IsStraightQuote(s[15]) && !IsStraightQuote(s[19]) && !IsStraightQuote(s[20])
  }

  lemma ThreeQuotedFirst(s: string)
    requires ThreeQuoted(s)
    ensures var b1 := s[13 := RightSingle];
            && (forall k :: 12 <= k <= 16 ==> LookState(s, k) == Look(b1, Some(13)))
            && (forall k :: 0 <= k < 11 ==> QuoteAt(s, k) == s[k])
            && QuoteAt(s, 11) == LeftSingle
            && (forall k :: 12 <= k < 16 ==> QuoteAt(s, k) == b1[k])
  {
    QuoteFreeDecisions(s, 11);
    QuotedCharPhase(s, Look(s, None), 11, 16);
  }

  lemma ThreeQuotedSecond(s: string)
    requires ThreeQuoted(s)
    requires LookState(s, 16) == Look(s[13 := RightSingle], Some(13))
    ensures var b2 := s[13 := RightSingle][18 := RightSingle];
            && LookState(s, 21) == Look(b2, Some(18))
            && QuoteAt(s, 16) == LeftSingle
            && (forall k :: 17 <= k < 21 ==> QuoteAt(s, k) == b2[k])
  {
    QuotedCharPhase(s, Look(s[13 := RightSingle], Some(13)), 16, 21);
  }

  lemma ThreeQuotedThird(s: string)
    requires ThreeQuoted(s)
    requires LookState(s, 21) == Look(s[13 := RightSingle][18 := RightSingle], Some(18))
    ensures var b3 := s[13 := RightSingle][18 := RightSingle][23 := RightSingle];
            && QuoteAt(s, 21) == LeftSingle
            && (forall k :: 22 <= k < 24 ==> QuoteAt(s, k) == b3[k])
  {
    QuotedCharPhase(s, Look(s[13 := RightSingle][18 := RightSingle], Some(18)), 21, 24);
  }

  /** Each quoted character gets an opening and a closing quote; the rest is copied. */
  lemma ThreeQuotedOutput(s: string)
    requires ThreeQuoted(s)
    ensures QuotesSpec(s) == s[11 := LeftSingle][13 := RightSingle][16 := LeftSingle][18 := RightSingle]
                              [21 := LeftSingle][23 := RightSingle]
  {
    ThreeQuotedFirst(s);
    ThreeQuotedSecond(s);
    ThreeQuotedThird(s);
    var b := s[11 := LeftSingle][13 := RightSingle][16 := LeftSingle][18 := RightSingle]
              [21 := LeftSingle][23 := RightSingle];
    forall k | 0 <= k < 24
      ensures QuotesSpec(s)[k] == b[k]
    {
    }
  }

  lemma QuotedCharsShape(s: string)
    requires s == "some char: 'c', '4', '&'"
    ensures ThreeQuoted(s)
  {
  }

  lemma QuotedCharsUpdate(s: string, r: string)
    requires s == "some char: 'c', '4', '&'"
    requires r == "some char: \U{2018}c\U{2019}, \U{2018}4\U{2019}, \U{2018}&\U{2019}"
    ensures s[11 := LeftSingle][13 := RightSingle][16 := LeftSingle][18 := RightSingle]
             [21 := LeftSingle][23 := RightSingle] == r
  {
  }

  /** `quotes_4`: each of three quoted characters, a letter, a digit and a symbol, is
      put in typographic single quotes. */
  lemma QuotedChars()
    ensures QuotesSpec("some char: 'c', '4', '&'") == "some char: \U{2018}c\U{2019}, \U{2018}4\U{2019}, \U{2018}&\U{2019}"
  {
    var s := "some char: 'c', '4', '&'";
    QuotedCharsShape(s);
    ThreeQuotedOutput(s);
    QuotedCharsUpdate(s, "some char: \U{2018}c\U{2019}, \U{2018}4\U{2019}, \U{2018}&\U{2019}");
  }

  lemma QuotedPunctuationShape(s: string)
    requires s == "some char: '!', '?', ','"
    ensures ThreeQuoted(s)
  {
    assert QuotedChar(s, 11);
    assert QuotedChar(s, 16);
    assert QuotedChar(s, 21);
  }

  lemma QuotedPunctuationUpdate(s: string, r: string)
    requires s == "some char: '!', '?', ','"
    requires r == "some char: \U{2018}!\U{2019}, \U{2018}?\U{2019}, \U{2018},\U{2019}"
    ensures s[11 := LeftSingle][13 := RightSingle][16 := LeftSingle][18 := RightSingle]
             [21 := LeftSingle][23 := RightSingle] == r
  {
  }

  /** `quotes_9`: the same with three punctuation characters. */
  lemma QuotedPunctuation()
    ensures QuotesSpec("some char: '!', '?', ','") == "some char: \U{2018}!\U{2019}, \U{2018}?\U{2019}, \U{2018},\U{2019}"
  {
    var s := "some char: '!', '?', ','";
    QuotedPunctuationShape(s);
    ThreeQuotedOutput(s);
    QuotedPunctuationUpdate(s, "some char: \U{2018}!\U{2019}, \U{2018}?\U{2019}, \U{2018},\U{2019}");
  }
}
