/**
 * The spacing half of `format_output` (src/lib/french.rs) and of the first
 * `format` (src/french.rs): on the cleaned text, the early return when there is
 * nothing to do, then the number pass, then the punctuation pass, with the marks
 * of the output format.
 */
module FrenchSpacing {
  import opened Unicode
  import opened Common
  import opened Maybe
  import opened Clean
  import opened FrenchScan
  import opened FrenchNumbers
  import opened FrenchPunctuation

  /** The output format: Unicode no-break spaces, or LaTeX's `~`. */
  datatype Output = Default | Latex

  function MarksOf(o: Output): (m: Marks)
    ensures ValidMarks(m)
    ensures m == TexMarks <==> o == Latex
  {
    match o
    case Default => UnicodeMarks
    case Latex => TexMarks
  }

  /** A character the spacing passes may write. */
  predicate IsMark(m: Marks, x: char) {
    x == m.nb || x == m.narrow || x == m.em || x == ' '
  }

  /** The spacing passes on the cleaned text `c`; `legacy` selects the `«` rule of
      the first formatter. They keep the length and change only whitespace, into
      marks; a text with nothing to space comes back unchanged. */
  function Spacing(t: Thresholds, o: Output, legacy: bool, c: string): (r: string)
    ensures |r| == |c|
    ensures forall k :: 0 <= k < |c| && r[k] != c[k] ==> IsWhitespace(c[k]) && IsMark(MarksOf(o), r[k])
    ensures Quiet(c) ==> r == c
  {
    var m := MarksOf(o);
    var first := FindTrouble(c, 0);
    var firstNumber := FindDigit(c, 0);
    if first.None? && firstNumber.None? then c
    else
      var chars := NumberPass(t, m.narrow, c);
      match first
      case None => chars
      case Some(f) =>
        PunctuationFromSpec(t, m, legacy, chars, StepBack(f));
        PunctuationFrom(t, m, legacy, chars, StepBack(f))
  }

  /** Nothing to space: no character calling for a decision and no digit. */
  predicate Quiet(c: string) {
    forall k :: 0 <= k < |c| ==> !IsTrouble(c[k]) && !IsDigit(c[k])
  }

  /** The number pass with the narrow mark of `o`. */
  function Numbered(t: Thresholds, o: Output, c: string): string {
    NumberPass(t, MarksOf(o).narrow, c)
  }

  /** The result is the punctuation pass over the numbered text, or the numbered
      text itself when nothing calls for a decision. */
  lemma SpacingShape(t: Thresholds, o: Output, legacy: bool, c: string)
    ensures var r := Spacing(t, o, legacy, c);
            || (FindTrouble(c, 0).None? && r == Numbered(t, o, c))
            || (FindTrouble(c, 0).Some? && r == PunctuationFrom(t, MarksOf(o), legacy, Numbered(t, o, c), StepBack(FindTrouble(c, 0).value)))
  {
  }

  /** At `k`, the number pass leaves `c[k]` or puts a narrow mark over whitespace. */
  lemma NumberedAt(t: Thresholds, o: Output, c: string, k: nat)
    requires k < |c|
    ensures |Numbered(t, o, c)| == |c|
    ensures Numbered(t, o, c)[k] == c[k] || (IsWhitespace(c[k]) && Numbered(t, o, c)[k] == MarksOf(o).narrow)
    ensures Numbered(t, o, c)[k] != c[k] ==> k > 0 && (IsDigit(c[k - 1]) || IsWhitespace(c[k - 1]))
  {
    if NumberSpaceAt(t, c, k) {
      InNumberBefore(c, k);
    }
  }

  /** The number pass neither writes nor removes a dash. */
  lemma NumberedDash(t: Thresholds, o: Output, c: string, k: nat)
    requires k < |c|
    ensures |Numbered(t, o, c)| == |c| && IsDashChar(Numbered(t, o, c)[k]) == IsDashChar(c[k])
  {
    NumberedAt(t, o, c, k);
    var m := MarksOf(o);
    assert !IsDashChar(m.narrow);
  }

  /** Before `?`, `!` or `;` a space ends narrow; before `:` it ends no-break; a plain
      space before `»` ends no-break or narrow. A space right after a dash opening
      the text keeps the en space that dash gives it. */
  lemma SpacingBeforePunctuation(t: Thresholds, o: Output, legacy: bool, c: string, k: nat)
    requires k + 1 < |c|
    ensures var r := Spacing(t, o, legacy, c);
            var m := MarksOf(o);
            && (IsSpaceLike(c[k]) && (c[k + 1] == '?' || c[k + 1] == '!' || c[k + 1] == ';') ==>
                  r[k] == m.narrow || (r[k] == m.em && DialogueDash(c, k)))
            && (IsSpaceLike(c[k]) && c[k + 1] == ':' ==> r[k] == m.nb || (r[k] == m.em && DialogueDash(c, k)))
            && (c[k] == ' ' && c[k + 1] == ClosingGuillemet ==>
                  r[k] == m.nb || r[k] == m.narrow || (r[k] == m.em && DialogueDash(c, k)))
  {
    var m := MarksOf(o);
    var v := Numbered(t, o, c);
    var r := Spacing(t, o, legacy, c);
    if IsTrouble(c[k + 1]) {
      NumberedAt(t, o, c, k);
      NumberedAt(t, o, c, k + 1);
      if k > 0 {
        NumberedAt(t, o, c, k - 1);
        NumberedDash(t, o, c, k - 1);
      }
      SpacingShape(t, o, legacy, c);
      var first := FindTrouble(c, 0);
      assert first.Some? && first.value <= k + 1;
      assert v[k + 1] == c[k + 1];
      PunctuationAt(t, m, legacy, v, StepBack(first.value), k);
      if v[k] != c[k] {
        FromGood(t, m, legacy, v, v, StepBack(first.value));
        assert v[k] == m.narrow && !IsDashChar(c[k - 1]);
      }
    }
  }

  /** Where no punctuation rule reaches, the result is the number pass's: a narrow
      mark for whitespace inside a number before a digit or a unit, the input
      elsewhere. */
  lemma SpacingUntouched(t: Thresholds, o: Output, legacy: bool, c: string, k: nat)
    requires k < |c| && Untouched(c, k)
    ensures Spacing(t, o, legacy, c)[k] == if NumberSpaceAt(t, c, k) then MarksOf(o).narrow else c[k]
  {
    var m := MarksOf(o);
    var v := Numbered(t, o, c);
    SpacingShape(t, o, legacy, c);
    var first := FindTrouble(c, 0);
    if first.Some? {
      assert Untouched(v, k) by {
        if k + 1 < |c| {
          assert v[k + 1] == c[k + 1] || v[k + 1] == m.narrow;
        }
        if k > 0 {
          assert v[k - 1] == c[k - 1] || v[k - 1] == m.narrow;
        }
      }
      PunctuationUntouched(t, m, legacy, v, StepBack(first.value));
    }
  }
}
