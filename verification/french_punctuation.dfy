/**
 * The punctuation pass of `format_output` (src/lib/french.rs) and of the first
 * `format` (src/french.rs): spaces before `?`, `!`, `;`, `:` and `»`, and after a
 * dash or `«`.
 *
 * The loop writes ahead of its index (the space after a dash or `«`, the space
 * before the closing dash or `»`) and later iterations read those writes, so it is
 * modelled as it runs, as a sequence of steps on the character vector. The two
 * generations differ only in the `«` case (`legacy` selects the first one).
 */
module FrenchPunctuation {
  import opened Unicode
  import opened Common
  import opened Maybe
  import opened Clean
  import opened FrenchScan

  /** The three no-break marks the formatter writes: the no-break space, the en
      space and the narrow no-break space. */
  datatype Marks = Marks(nb: char, em: char, narrow: char)

  /** The marks of `format` and of `format_tex`. */
  const UnicodeMarks: Marks := Marks(NbChar, NbCharEm, NbCharNarrow)
  const TexMarks: Marks := Marks('~', '~', '~')

  predicate ValidMarks(m: Marks) {
    m == UnicodeMarks || m == TexMarks
  }

  /** What a step at `i` may write at `k`: a mark, a plain space, or the en space
      right after a dash at the very start of the text. */
  predicate WriteAt(m: Marks, chars: string, i: nat, k: nat, c: char)
    requires i < |chars|
  {
    || c == m.nb || c == m.narrow
    || (c == ' ' && k == i + 1 && IsDashChar(chars[i]))
    || (c == m.em && k == i + 1 && i <= 1 && IsDashChar(chars[i]))
  }

  /** Why a step at `i` may write at `k`: it is the space before the punctuation at
      `i + 1`, the space after the dash or `«` at `i`, or the space before a
      closing dash or `»`. */
  predicate WriteReason(chars: string, i: nat, k: nat)
    requires i < |chars| && k < |chars|
  {
    || (k == i && k + 1 < |chars| && (chars[k + 1] == '?' || chars[k + 1] == '!' || chars[k + 1] == ';'
                                      || chars[k + 1] == ':' || chars[k + 1] == ClosingGuillemet))
    || (k == i + 1 && (IsDashChar(chars[i]) || chars[i] == OpeningGuillemet))
    || (k + 1 < |chars| && (IsDashChar(chars[k + 1]) || chars[k + 1] == ClosingGuillemet))
  }

  /** `r` is `chars` with writes from position `i` on, each over a whitespace, each
      for a reason. */
  predicate WritesOk(m: Marks, chars: string, r: string, i: nat)
    requires i < |chars|
  {
    |r| == |chars| && forall k :: 0 <= k < |chars| && r[k] != chars[k] ==>
      i <= k && IsWhitespace(chars[k]) && WriteAt(m, chars, i, k, r[k]) && WriteReason(chars, i, k)
  }

  // ---------------------------------------------------------------------------
  // One step of the loop
  // ---------------------------------------------------------------------------

  /** A whitespace at `i`: narrow before `?`, `!`, `;`, no-break before `:`, and
      no-break before `»` when it is a plain space. */
  function SpaceStep(m: Marks, chars: string, i: nat): (r: string)
    requires i + 1 < |chars| && IsSpaceLike(chars[i])
    ensures WritesOk(m, chars, r, i)
    ensures forall k :: 0 <= k < |chars| && k != i ==> r[k] == chars[k]
    ensures chars[i + 1] == '?' || chars[i + 1] == '!' || chars[i + 1] == ';' ==> r[i] == m.narrow
    ensures chars[i + 1] == ':' ==> r[i] == m.nb
    ensures chars[i + 1] == ClosingGuillemet ==> r[i] == if chars[i] == ' ' then m.nb else chars[i]
    ensures !IsTrouble(chars[i + 1]) ==> r == chars
  {
    var current := chars[i];
    var next := chars[i + 1];
    if next == '?' || next == '!' || next == ';' then chars[i := m.narrow]
    else if next == ':' then chars[i := m.nb]
    else if next == ClosingGuillemet && current == ' ' then chars[i := m.nb]
    else chars
  }

  /** A dash at `i` followed by a space: an en space at the start of the text (a
      dialogue), a breakable space after a no-break one, else a no-break space on
      both sides of the incise. */
  function DashStep(t: Thresholds, m: Marks, chars: string, i: nat): (r: string)
    requires i + 1 < |chars| && IsDashChar(chars[i]) && IsSpaceLike(chars[i + 1])
    ensures WritesOk(m, chars, r, i)
    ensures i <= 1 ==> r == chars[i + 1 := m.em]
    ensures i > 1 && chars[i - 1] == m.nb ==> r == chars[i + 1 := ' ']
    ensures i > 1 && chars[i - 1] != m.nb ==>
              && r[i + 1] == m.nb
              && match FindClosingDash(t, chars, i + 1)
                 case Some(closing) =>
                   r[closing] == m.nb && forall k :: 0 <= k < |chars| && k != i + 1 && k != closing ==> r[k] == chars[k]
                 case None => forall k :: 0 <= k < |chars| && k != i + 1 ==> r[k] == chars[k]
  {
    if i <= 1 then chars[i + 1 := m.em]
    else if chars[i - 1] == m.nb then chars[i + 1 := ' ']
    else
      var chars' := match FindClosingDash(t, chars, i + 1)
                    case Some(closing) => chars[closing := m.nb]
                    case None => chars;
      chars'[i + 1 := m.nb]
  }

  /** A `«` at `i` followed by a space (src/lib/french.rs): the matching `»` gets
      the same space before it, a no-break one at the start of the text or for a
      quote longer than the threshold, a narrow one otherwise. */
  function OpeningStep(t: Thresholds, m: Marks, chars: string, i: nat): (r: string)
    requires i + 1 < |chars| && chars[i] == OpeningGuillemet && IsSpaceLike(chars[i + 1])
    ensures WritesOk(m, chars, r, i)
    ensures r[i + 1] == m.nb || r[i + 1] == m.narrow
    ensures match FindNext(chars, ClosingGuillemet, i)
            case Some(j) => IsWhitespace(chars[j - 1]) ==> r[j - 1] == r[i + 1]
            case None => r[i + 1] == m.nb
    ensures match FindNext(chars, ClosingGuillemet, i)
            case Some(j) =>
              r[i + 1] == (if IsWhitespace(chars[j - 1]) && i > 1 && j - i <= t.quote then m.narrow else m.nb)
            case None => true
  {
    match FindNext(chars, ClosingGuillemet, i)
    case Some(j) =>
      if IsWhitespace(chars[j - 1]) then
        if i <= 1 || j - i > t.quote then chars[j - 1 := m.nb][i + 1 := m.nb]
        else chars[j - 1 := m.narrow][i + 1 := m.narrow]
      else chars[i + 1 := m.nb]
    case None => chars[i + 1 := m.nb]
  }

  /** The `«` case of the first formatter (src/french.rs): only the space after it
      at the start of the text; a `»` at the very end counts as a dialogue. */
  function LegacyOpeningStep(t: Thresholds, m: Marks, chars: string, i: nat): (r: string)
    requires i + 1 < |chars| && chars[i] == OpeningGuillemet && IsSpaceLike(chars[i + 1])
    ensures WritesOk(m, chars, r, i)
    ensures r[i + 1] == m.nb || r[i + 1] == m.narrow
    ensures i <= 1 ==> forall k :: 0 <= k < |chars| && k != i + 1 ==> r[k] == chars[k]
    ensures i > 1 ==> match FindNext(chars, ClosingGuillemet, i)
                      case Some(j) => IsWhitespace(chars[j - 1]) ==> r[j - 1] == r[i + 1]
                      case None => r[i + 1] == m.nb
    ensures i > 1 ==> match FindNext(chars, ClosingGuillemet, i)
                      case Some(j) =>
                        r[i + 1] == (if IsWhitespace(chars[j - 1]) && j < |chars| - 1 && j - i <= t.quote
                                     then m.narrow else m.nb)
                      case None => true
  {
    if i <= 1 then chars[i + 1 := m.nb]
    else
      match FindNext(chars, ClosingGuillemet, i)
      case Some(j) =>
        if IsWhitespace(chars[j - 1]) then
          if j >= |chars| - 1 then chars[j - 1 := m.nb][i + 1 := m.nb]
          else if j - i > t.quote then chars[j - 1 := m.nb][i + 1 := m.nb]
          else chars[j - 1 := m.narrow][i + 1 := m.narrow]
        else chars[i + 1 := m.nb]
      case None => chars[i + 1 := m.nb]
  }

  /** One iteration of the loop at `i`. */
  function PunctuationStep(t: Thresholds, m: Marks, legacy: bool, chars: string, i: nat): (r: string)
    requires i + 1 < |chars|
    ensures WritesOk(m, chars, r, i)
  {
    var current := chars[i];
    var next := chars[i + 1];
    if IsSpaceLike(current) then SpaceStep(m, chars, i)
    else if IsDashChar(current) && IsSpaceLike(next) then DashStep(t, m, chars, i)
    else if current == OpeningGuillemet && IsSpaceLike(next) then
      if legacy then LegacyOpeningStep(t, m, chars, i) else OpeningStep(t, m, chars, i)
    else chars
  }

  /** The loop from `i`, while `i + 1 < |chars|`. */
  function PunctuationFrom(t: Thresholds, m: Marks, legacy: bool, chars: string, i: nat): (r: string)
    requires i <= |chars|
    ensures |r| == |chars|
    ensures forall k :: 0 <= k < i && k < |chars| ==> r[k] == chars[k]
    decreases |chars| - i
  {
    if i + 1 >= |chars| then chars
    else PunctuationFrom(t, m, legacy, PunctuationStep(t, m, legacy, chars, i), i + 1)
  }

  /** The first character at or after `n` that calls for a spacing decision. */
  function FindTrouble(v: string, n: nat): (r: Option<nat>)
    ensures r.Some? ==> n <= r.value < |v| && IsTrouble(v[r.value])
                        && forall k :: n <= k < r.value ==> !IsTrouble(v[k])
    ensures r.None? ==> forall k :: n <= k < |v| ==> !IsTrouble(v[k])
    decreases |v| - n
  {
    if n >= |v| then None
    else if IsTrouble(v[n]) then Some(n)
    else FindTrouble(v, n + 1)
  }

  /** Where a pass starts: one position before its first hit. */
  function StepBack(first: nat): (start: nat)
    ensures start <= first && (first > 0 ==> start == first - 1)
  {
    if first > 1 then first - 1 else 0
  }

  // ---------------------------------------------------------------------------
  // What the loop does
  // ---------------------------------------------------------------------------

  /** The en space after a dash opening the text. */
  predicate DialogueDash(v: string, k: nat)
    requires k < |v|
  {
    1 <= k <= 2 && IsDashChar(v[k - 1])
  }

  /** Right after a dash. */
  predicate AfterDash(v: string, k: nat)
    requires k < |v|
  {
    k > 0 && IsDashChar(v[k - 1])
  }

  /** `chars` differs from the pass input `v` only at whitespace, by marks. */
  predicate Good(m: Marks, v: string, chars: string) {
    |chars| == |v| && forall k :: 0 <= k < |v| && chars[k] != v[k] ==>
      IsWhitespace(v[k]) && (chars[k] == m.nb || chars[k] == m.narrow || (chars[k] == ' ' && AfterDash(v, k))
                             || (chars[k] == m.em && DialogueDash(v, k)))
  }

  lemma StepGood(t: Thresholds, m: Marks, legacy: bool, v: string, chars: string, i: nat)
    requires ValidMarks(m) && i + 1 < |v| && Good(m, v, chars)
    ensures Good(m, v, PunctuationStep(t, m, legacy, chars, i))
  {
    var r := PunctuationStep(t, m, legacy, chars, i);
    forall k | 0 <= k < |v| && r[k] != v[k]
      ensures IsWhitespace(v[k]) && (r[k] == m.nb || r[k] == m.narrow || (r[k] == ' ' && AfterDash(v, k))
                                     || (r[k] == m.em && DialogueDash(v, k)))
    {
      if r[k] != chars[k] {
        if chars[k] != v[k] {
        } else {
          CaseFacts(v[k]);
        }
        if k == i + 1 && IsDashChar(chars[i]) {
          assert chars[i] == v[i];
        }
      }
    }
  }

  /** The vector the loop holds when it reaches `k`: the result at `k` is what the
      step at `k` writes there. */
  lemma {:induction false} StateAt(t: Thresholds, m: Marks, legacy: bool, v: string, chars: string, i: nat, k: nat)
    returns (c: string)
    requires ValidMarks(m) && Good(m, v, chars) && i <= k && k + 1 < |v|
    ensures Good(m, v, c)
    ensures PunctuationFrom(t, m, legacy, chars, i)[k] == PunctuationStep(t, m, legacy, c, k)[k]
    decreases k - i
  {
    StepGood(t, m, legacy, v, chars, i);
    var next := PunctuationStep(t, m, legacy, chars, i);
    assert PunctuationFrom(t, m, legacy, chars, i) == PunctuationFrom(t, m, legacy, next, i + 1);
    if i == k {
      c := chars;
    } else {
      c := StateAt(t, m, legacy, v, next, i + 1, k);
    }
  }

  lemma {:induction false} FromGood(t: Thresholds, m: Marks, legacy: bool, v: string, chars: string, i: nat)
    requires ValidMarks(m) && Good(m, v, chars) && i <= |v|
    ensures Good(m, v, PunctuationFrom(t, m, legacy, chars, i))
    decreases |v| - i
  {
    if i + 1 < |v| {
      StepGood(t, m, legacy, v, chars, i);
      FromGood(t, m, legacy, v, PunctuationStep(t, m, legacy, chars, i), i + 1);
    }
  }

  /** What the step at `k` leaves at `k` before `?`, `!`, `;`, `:` and `»`. */
  lemma StepRules(t: Thresholds, m: Marks, legacy: bool, v: string, c: string, k: nat)
    requires ValidMarks(m) && Good(m, v, c) && k + 1 < |v|
    ensures var x := PunctuationStep(t, m, legacy, c, k)[k];
            && (IsSpaceLike(v[k]) && (v[k + 1] == '?' || v[k + 1] == '!' || v[k + 1] == ';') ==>
                  x == m.narrow || (x == m.em && DialogueDash(v, k)))
            && (IsSpaceLike(v[k]) && v[k + 1] == ':' ==> x == m.nb || (x == m.em && DialogueDash(v, k)))
            && (v[k] == ' ' && v[k + 1] == ClosingGuillemet ==>
                  x == m.nb || x == m.narrow || (x == m.em && DialogueDash(v, k)))
  {
    var r := PunctuationStep(t, m, legacy, c, k);
    CaseFacts(v[k + 1]);
    assert c[k + 1] == v[k + 1] || IsWhitespace(v[k + 1]);
    if IsSpaceLike(v[k]) || v[k] == ' ' {
      if !IsSpaceLike(c[k]) {
        assert r[k] == c[k];
      }
    }
  }

  /** The rules of the pass at one position `k` from `start` on. */
  lemma PunctuationAt(t: Thresholds, m: Marks, legacy: bool, v: string, start: nat, k: nat)
    requires ValidMarks(m) && start <= k && k + 1 < |v|
    ensures var x := PunctuationFrom(t, m, legacy, v, start)[k];
            && (IsSpaceLike(v[k]) && (v[k + 1] == '?' || v[k + 1] == '!' || v[k + 1] == ';') ==>
                  x == m.narrow || (x == m.em && DialogueDash(v, k)))
            && (IsSpaceLike(v[k]) && v[k + 1] == ':' ==> x == m.nb || (x == m.em && DialogueDash(v, k)))
            && (v[k] == ' ' && v[k + 1] == ClosingGuillemet ==>
                  x == m.nb || x == m.narrow || (x == m.em && DialogueDash(v, k)))
  {
    var c := StateAt(t, m, legacy, v, v, start, k);
    StepRules(t, m, legacy, v, c, k);
  }

  /** The punctuation pass from `start`: it keeps the length, changes nothing before
      `start`, changes only whitespace and only into marks or a plain space; and from
      `start` on a space before `?`, `!` or `;` ends narrow, one before `:` ends
      no-break, and a plain space before `»` ends no-break or narrow (in each case
      unless it follows a dash opening the text, which gives it the en space). */
  lemma PunctuationFromSpec(t: Thresholds, m: Marks, legacy: bool, v: string, start: nat)
    requires ValidMarks(m) && start <= |v|
    ensures var r := PunctuationFrom(t, m, legacy, v, start);
            && Good(m, v, r)
            && (forall k :: 0 <= k < start && k < |v| ==> r[k] == v[k])
            && (forall k :: (start <= k && k + 1 < |v| && IsSpaceLike(v[k])
                                && (v[k + 1] == '?' || v[k + 1] == '!' || v[k + 1] == ';')) ==>
                  r[k] == m.narrow || (r[k] == m.em && DialogueDash(v, k)))
            && (forall k :: start <= k && k + 1 < |v| && IsSpaceLike(v[k]) && v[k + 1] == ':' ==>
                  r[k] == m.nb || (r[k] == m.em && DialogueDash(v, k)))
            && (forall k :: start <= k && k + 1 < |v| && v[k] == ' ' && v[k + 1] == ClosingGuillemet ==>
                  r[k] == m.nb || r[k] == m.narrow || (r[k] == m.em && DialogueDash(v, k)))
  {
    var r := PunctuationFrom(t, m, legacy, v, start);
    FromGood(t, m, legacy, v, v, start);
    forall k | start <= k && k + 1 < |v|
      ensures var x := r[k];
              && (IsSpaceLike(v[k]) && (v[k + 1] == '?' || v[k + 1] == '!' || v[k + 1] == ';') ==>
                    x == m.narrow || (x == m.em && DialogueDash(v, k)))
              && (IsSpaceLike(v[k]) && v[k + 1] == ':' ==> x == m.nb || (x == m.em && DialogueDash(v, k)))
              && (v[k] == ' ' && v[k + 1] == ClosingGuillemet ==>
                    x == m.nb || x == m.narrow || (x == m.em && DialogueDash(v, k)))
    {
      PunctuationAt(t, m, legacy, v, start, k);
    }
  }

  // ---------------------------------------------------------------------------
  // After a dash or `«`, for the whole pass
  // ---------------------------------------------------------------------------

  /** Nothing after `p` makes an earlier step write at `p`: no punctuation, no dash
      and no guillemet follows it. */
  predicate NoReasonAhead(v: string, p: nat)
    requires p < |v|
  {
    p + 1 < |v| ==> !IsTrouble(v[p + 1]) && v[p + 1] != '-'
  }

  /** A step before `p - 1` does not write at `p` when nothing after `p` calls for it. */
  lemma StepKeepsAhead(t: Thresholds, m: Marks, legacy: bool, v: string, c: string, j: nat, p: nat)
    requires ValidMarks(m) && Good(m, v, c) && j + 1 < p < |v| && NoReasonAhead(v, p)
    ensures PunctuationStep(t, m, legacy, c, j)[p] == c[p]
  {
    if p + 1 < |v| {
      assert c[p + 1] == v[p + 1] || IsWhitespace(v[p + 1]);
    }
  }

  /** The vector the loop holds when it reaches `k`, with position `p` beyond it
      still as in the input. */
  lemma {:induction false} StateBefore(t: Thresholds, m: Marks, legacy: bool, v: string, chars: string, i: nat, k: nat, p: nat)
    returns (c: string)
    requires ValidMarks(m) && Good(m, v, chars) && i <= k < p < |v| && NoReasonAhead(v, p) && chars[p] == v[p]
    ensures Good(m, v, c) && c[p] == v[p]
    ensures PunctuationFrom(t, m, legacy, chars, i) == PunctuationFrom(t, m, legacy, c, k)
    decreases k - i
  {
    if i == k {
      c := chars;
    } else {
      StepGood(t, m, legacy, v, chars, i);
      StepKeepsAhead(t, m, legacy, v, chars, i, p);
      var next := PunctuationStep(t, m, legacy, chars, i);
      assert PunctuationFrom(t, m, legacy, chars, i) == PunctuationFrom(t, m, legacy, next, i + 1);
      c := StateBefore(t, m, legacy, v, next, i + 1, k, p);
    }
  }

  /** The step after the one at `k` keeps what that one wrote at `k + 1` when no
      punctuation follows, and no later step writes there. */
  lemma SettledAfter(t: Thresholds, m: Marks, legacy: bool, v: string, c1: string, k: nat)
    requires ValidMarks(m) && Good(m, v, c1) && k + 2 < |v| && !IsTrouble(v[k + 2])
    ensures PunctuationFrom(t, m, legacy, c1, k + 1)[k + 1] == c1[k + 1]
  {
    assert c1[k + 2] == v[k + 2] || IsWhitespace(v[k + 2]);
    var c2 := PunctuationStep(t, m, legacy, c1, k + 1);
    assert PunctuationFrom(t, m, legacy, c1, k + 1) == PunctuationFrom(t, m, legacy, c2, k + 2);
    if IsSpaceLike(c1[k + 1]) {
      assert c2 == c1;
    }
  }

  /** The space after a dash, for the whole pass: the en space after a dash opening
      the text; else a no-break space, or a breakable one when the dash closes an
      incise whose opening made the space before it no-break. Right after a word,
      which of the two is fixed by that word's last character. */
  lemma PunctuationAfterDash(t: Thresholds, m: Marks, legacy: bool, v: string, start: nat, k: nat)
    requires ValidMarks(m) && start <= k && k + 2 < |v|
    requires IsDashChar(v[k]) && IsSpaceLike(v[k + 1]) && !IsTrouble(v[k + 2]) && v[k + 2] != '-'
    ensures var x := PunctuationFrom(t, m, legacy, v, start)[k + 1];
            && (k <= 1 ==> x == m.em)
            && (k > 1 ==> x == m.nb || x == ' ')
            && (k > 1 && !IsWhitespace(v[k - 1]) ==> x == if v[k - 1] == m.nb then ' ' else m.nb)
  {
    var c := StateBefore(t, m, legacy, v, v, start, k, k + 1);
    CaseFacts(v[k]);
    assert c[k] == v[k];
    if k > 0 {
      assert c[k - 1] == v[k - 1] || IsWhitespace(v[k - 1]);
    }
    var c1 := PunctuationStep(t, m, legacy, c, k);
    assert c1 == DashStep(t, m, c, k);
    StepGood(t, m, legacy, v, c, k);
    assert PunctuationFrom(t, m, legacy, c, k) == PunctuationFrom(t, m, legacy, c1, k + 1);
    SettledAfter(t, m, legacy, v, c1, k);
  }

  /** `FindNext` of `»` sees through the marks the pass writes. */
  lemma {:induction false} FindClosingGood(m: Marks, v: string, c: string, n: nat)
    requires ValidMarks(m) && Good(m, v, c)
    ensures FindNext(c, ClosingGuillemet, n) == FindNext(v, ClosingGuillemet, n)
    decreases |v| - n
  {
    if n < |v| {
      assert c[n] == v[n] || IsWhitespace(v[n]);
      FindClosingGood(m, v, c, n + 1);
    }
  }

  /** No step but a `«` step writes before a `»`. */
  lemma StepKeepsBeforeClosing(t: Thresholds, m: Marks, legacy: bool, c: string, j: nat, p: nat)
    requires j + 1 < |c| && j + 1 < p && p + 1 < |c| && c[p + 1] == ClosingGuillemet && c[j] != OpeningGuillemet
    ensures PunctuationStep(t, m, legacy, c, j)[p] == c[p]
  {
  }

  /** The vector the loop holds when it reaches `k`, when no `«` comes before `k`:
      the space before a `»` beyond `k`, and the character after `k`, are still as
      in the input. */
  lemma {:induction false} StateBeforeClosing(t: Thresholds, m: Marks, legacy: bool, v: string, chars: string, i: nat, k: nat, p: nat)
    returns (c: string)
    requires ValidMarks(m) && Good(m, v, chars) && i <= k && k + 1 < p && p + 1 < |v|
    requires v[p + 1] == ClosingGuillemet && chars[p] == v[p]
    requires NoReasonAhead(v, k + 1) && chars[k + 1] == v[k + 1]
    requires forall q :: i <= q < k ==> v[q] != OpeningGuillemet
    ensures Good(m, v, c) && c[p] == v[p] && c[k + 1] == v[k + 1]
    ensures PunctuationFrom(t, m, legacy, chars, i) == PunctuationFrom(t, m, legacy, c, k)
    decreases k - i
  {
    if i == k {
      c := chars;
    } else {
      StepGood(t, m, legacy, v, chars, i);
      CaseFacts(v[p + 1]);
      assert chars[p + 1] == v[p + 1];
      assert chars[i] == v[i] || IsWhitespace(v[i]);
      StepKeepsBeforeClosing(t, m, legacy, chars, i, p);
      StepKeepsAhead(t, m, legacy, v, chars, i, k + 1);
      var next := PunctuationStep(t, m, legacy, chars, i);
      assert PunctuationFrom(t, m, legacy, chars, i) == PunctuationFrom(t, m, legacy, next, i + 1);
      c := StateBeforeClosing(t, m, legacy, v, next, i + 1, k, p);
    }
  }

  /** The `«` step at `k` and the step after it, from a vector that still holds the
      input at `k` and `k + 1`. */
  lemma OpeningSettles(t: Thresholds, m: Marks, legacy: bool, v: string, c: string, k: nat)
    returns (c1: string)
    requires ValidMarks(m) && Good(m, v, c) && k + 2 < |v| && c[k] == v[k] && c[k + 1] == v[k + 1]
    requires v[k] == OpeningGuillemet && IsSpaceLike(v[k + 1]) && !IsTrouble(v[k + 2])
    ensures c1 == PunctuationStep(t, m, legacy, c, k)
    ensures PunctuationFrom(t, m, legacy, c, k)[k + 1] == c1[k + 1]
    ensures c1[k + 1] == m.nb || c1[k + 1] == m.narrow
  {
    c1 := PunctuationStep(t, m, legacy, c, k);
    StepGood(t, m, legacy, v, c, k);
    assert PunctuationFrom(t, m, legacy, c, k) == PunctuationFrom(t, m, legacy, c1, k + 1);
    SettledAfter(t, m, legacy, v, c1, k);
  }

  /** The space after `«`, for the whole pass: a no-break or a narrow no-break space. */
  lemma PunctuationAfterOpening(t: Thresholds, m: Marks, legacy: bool, v: string, start: nat, k: nat)
    requires ValidMarks(m) && start <= k && k + 2 < |v|
    requires v[k] == OpeningGuillemet && IsSpaceLike(v[k + 1]) && !IsTrouble(v[k + 2]) && v[k + 2] != '-'
    ensures var x := PunctuationFrom(t, m, legacy, v, start)[k + 1];
            x == m.nb || x == m.narrow
  {
    var c := StateBefore(t, m, legacy, v, v, start, k, k + 1);
    assert c[k] == v[k];
    var c1 := OpeningSettles(t, m, legacy, v, c, k);
  }

  /** The space after the first `«` of the current formatter, for the whole pass:
      narrow exactly when the `«` is not at the start of the text, its `»` follows a
      whitespace, and the quote is at most `quote` characters long. */
  lemma PunctuationAfterFirstOpening(t: Thresholds, m: Marks, v: string, start: nat, k: nat)
    requires ValidMarks(m) && start <= k && k + 2 < |v|
    requires v[k] == OpeningGuillemet && IsSpaceLike(v[k + 1]) && !IsTrouble(v[k + 2]) && v[k + 2] != '-'
    requires forall q :: start <= q < k ==> v[q] != OpeningGuillemet
    ensures var x := PunctuationFrom(t, m, false, v, start)[k + 1];
            match FindNext(v, ClosingGuillemet, k)
            case Some(j) => x == if IsWhitespace(v[j - 1]) && k > 1 && j - k <= t.quote then m.narrow else m.nb
            case None => x == m.nb
  {
    match FindNext(v, ClosingGuillemet, k)
    case Some(j) =>
      var c := StateBeforeClosing(t, m, false, v, v, start, k, j - 1);
      AfterFirstOpening(t, m, v, c, k);
    case None =>
      var c := StateBefore(t, m, false, v, v, start, k, k + 1);
      AfterFirstOpening(t, m, v, c, k);
  }

  /** The `«` step of the current formatter and the step after it, stated on the input. */
  lemma AfterFirstOpening(t: Thresholds, m: Marks, v: string, c: string, k: nat)
    requires ValidMarks(m) && Good(m, v, c) && k + 2 < |v| && c[k + 1] == v[k + 1]
    requires v[k] == OpeningGuillemet && IsSpaceLike(v[k + 1]) && !IsTrouble(v[k + 2])
    requires match FindNext(v, ClosingGuillemet, k) case Some(j) => k + 1 < j && c[j - 1] == v[j - 1] case None => true
    ensures var x := PunctuationFrom(t, m, false, c, k)[k + 1];
            match FindNext(v, ClosingGuillemet, k)
            case Some(j) => x == if IsWhitespace(v[j - 1]) && k > 1 && j - k <= t.quote then m.narrow else m.nb
            case None => x == m.nb
  {
    CaseFacts(v[k]);
    assert c[k] == v[k];
    FindClosingGood(m, v, c, k);
    var c1 := OpeningSettles(t, m, false, v, c, k);
    assert c1 == OpeningStep(t, m, c, k);
  }

  /** No rule of the pass reaches position `k`: nothing that calls for a spacing
      decision follows it, and no dash or `«` precedes it. */
  predicate Untouched(v: string, k: nat)
    requires k < |v|
  {
    && (k + 1 < |v| ==> !IsTrouble(v[k + 1]) && v[k + 1] != '-')
    && (k > 0 ==> !IsDashChar(v[k - 1]) && v[k - 1] != OpeningGuillemet)
  }

  lemma StepKeeps(t: Thresholds, m: Marks, legacy: bool, v: string, c: string, i: nat, k: nat)
    requires ValidMarks(m) && Good(m, v, c) && i + 1 < |v| && k < |v|
    requires Untouched(v, k) && c[k] == v[k]
    ensures PunctuationStep(t, m, legacy, c, i)[k] == v[k]
  {
    if k + 1 < |v| {
      assert c[k + 1] == v[k + 1] || IsWhitespace(v[k + 1]);
    }
    if k > 0 {
      assert c[k - 1] == v[k - 1] || IsWhitespace(v[k - 1]);
    }
  }

  lemma {:induction false} FromKeeps(t: Thresholds, m: Marks, legacy: bool, v: string, c: string, i: nat, k: nat)
    requires ValidMarks(m) && Good(m, v, c) && i <= |v| && k < |v|
    requires Untouched(v, k) && c[k] == v[k]
    ensures PunctuationFrom(t, m, legacy, c, i)[k] == v[k]
    decreases |v| - i
  {
    if i + 1 < |v| {
      StepGood(t, m, legacy, v, c, i);
      StepKeeps(t, m, legacy, v, c, i, k);
      FromKeeps(t, m, legacy, v, PunctuationStep(t, m, legacy, c, i), i + 1, k);
    }
  }

  /** The pass leaves alone every position no rule reaches. */
  lemma PunctuationUntouched(t: Thresholds, m: Marks, legacy: bool, v: string, start: nat)
    requires ValidMarks(m) && start <= |v|
    ensures forall k :: 0 <= k < |v| && Untouched(v, k) ==> PunctuationFrom(t, m, legacy, v, start)[k] == v[k]
  {
    forall k | 0 <= k < |v| && Untouched(v, k)
      ensures PunctuationFrom(t, m, legacy, v, start)[k] == v[k]
    {
      FromKeeps(t, m, legacy, v, v, start, k);
    }
  }
}
