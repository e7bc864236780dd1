/**
 * The first `FrenchFormatter` (src/french.rs): four thresholds, a longer default
 * quote threshold, no switches, and a `format` that only collapses whitespace
 * before spacing, with its own rule for `«`.
 */
module LegacyFrench {
  import opened Unicode
  import opened Common
  import opened Clean
  import opened FrenchScan
  import opened FrenchNumbers
  import opened FrenchPunctuation
  import opened FrenchSpacing

  datatype LegacyFormatter = LegacyFormatter(thresholds: Thresholds)

  /** `FrenchFormatter::new()`: the quote threshold is 28, long enough for
      « anticonstitutionnellement » to count as a quoted word. */
  function New(): (f: LegacyFormatter)
    ensures f.thresholds == Thresholds(3, 2, 28, 3)
  {
    LegacyFormatter(Thresholds(3, 2, 28, 3))
  }

  function SetThresholdCurrency(f: LegacyFormatter, n: nat): (g: LegacyFormatter)
    ensures g.thresholds.currency == n
    ensures g.thresholds.unit == f.thresholds.unit && g.thresholds.quote == f.thresholds.quote
    ensures g.thresholds.realWord == f.thresholds.realWord
  {
    f.(thresholds := f.thresholds.(currency := n))
  }

  function SetThresholdUnit(f: LegacyFormatter, n: nat): (g: LegacyFormatter)
    ensures g.thresholds.unit == n
    ensures g.thresholds.currency == f.thresholds.currency && g.thresholds.quote == f.thresholds.quote
    ensures g.thresholds.realWord == f.thresholds.realWord
  {
    f.(thresholds := f.thresholds.(unit := n))
  }

  function SetThresholdQuote(f: LegacyFormatter, n: nat): (g: LegacyFormatter)
    ensures g.thresholds.quote == n
    ensures g.thresholds.currency == f.thresholds.currency && g.thresholds.unit == f.thresholds.unit
    ensures g.thresholds.realWord == f.thresholds.realWord
  {
    f.(thresholds := f.thresholds.(quote := n))
  }

  function SetThresholdRealWord(f: LegacyFormatter, n: nat): (g: LegacyFormatter)
    ensures g.thresholds.realWord == n
    ensures g.thresholds.currency == f.thresholds.currency && g.thresholds.unit == f.thresholds.unit
    ensures g.thresholds.quote == f.thresholds.quote
  {
    f.(thresholds := f.thresholds.(realWord := n))
  }

  /** `format`: `remove_whitespaces`, then the spacing passes with Unicode marks and
      the first `«` rule. The result has the length of the collapsed text and
      differs from it only at whitespace, by no-break spaces or a plain space. */
  function Format(f: LegacyFormatter, s: string): (r: string)
    ensures var c := Collapse(s);
            && |r| == |c|
            && (forall k :: 0 <= k < |c| && r[k] != c[k] ==>
                  IsWhitespace(c[k]) && (r[k] == NbChar || r[k] == NbCharNarrow || r[k] == NbCharEm || r[k] == ' '))
            && (Quiet(c) ==> r == c)
  {
    Spacing(f.thresholds, Default, true, Collapse(s))
  }

  // ---------------------------------------------------------------------------
  // The two generations
  // ---------------------------------------------------------------------------

  predicate NoOpening(v: string) {
    forall k :: 0 <= k < |v| ==> v[k] != OpeningGuillemet
  }

  lemma {:induction false} GenerationsAgreeFrom(t: Thresholds, m: Marks, v: string, i: nat)
    requires ValidMarks(m) && i <= |v| && NoOpening(v)
    ensures PunctuationFrom(t, m, true, v, i) == PunctuationFrom(t, m, false, v, i)
    decreases |v| - i
  {
    if i + 1 < |v| {
      var next := PunctuationStep(t, m, false, v, i);
      assert PunctuationStep(t, m, true, v, i) == next;
      assert NoOpening(next) by {
        forall k | 0 <= k < |next|
          ensures next[k] != OpeningGuillemet
        {
          assert next[k] == v[k] || WriteAt(m, v, i, k, next[k]);
        }
      }
      GenerationsAgreeFrom(t, m, next, i + 1);
    }
  }

  /** The two generations space a text alike unless it contains `«`: their spacing
      passes differ in the `«` rule only. */
  lemma GenerationsAgree(t: Thresholds, o: Output, c: string)
    requires NoOpening(c)
    ensures Spacing(t, o, true, c) == Spacing(t, o, false, c)
  {
    var v := Numbered(t, o, c);
    var first := FindTrouble(c, 0);
    if first.Some? {
      assert NoOpening(v) by {
        forall k | 0 <= k < |v|
          ensures v[k] != OpeningGuillemet
        {
          NumberedAt(t, o, c, k);
        }
      }
      GenerationsAgreeFrom(t, MarksOf(o), v, StepBack(first.value));
    }
  }
}
