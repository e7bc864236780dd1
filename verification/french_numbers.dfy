/**
 * The number pass of `format_output` (src/lib/french.rs; the same loop in
 * src/french.rs): inside a number, a whitespace followed by a digit or by a unit
 * or currency becomes a narrow no-break space.
 *
 * The loop is modelled as it runs, over the character vector it mutates, with the
 * flag `is_number_series`; `NumberSpaceAt` says declaratively which positions it
 * rewrites, and `NumberPass` states that the two agree.
 */
module FrenchNumbers {
  import opened Unicode
  import opened Maybe
  import opened FrenchScan

  // ---------------------------------------------------------------------------
  // The loop
  // ---------------------------------------------------------------------------

  /** The loop from position `i` on the vector `chars`, with the flag `series`.
      It runs while `i + 1 < |chars|`; the whitespace it rewrites becomes `narrow`. */
  function NumberFrom(t: Thresholds, narrow: char, chars: string, i: nat, series: bool): (r: string)
    requires i <= |chars|
    ensures |r| == |chars|
    ensures forall k :: 0 <= k < |chars| && r[k] != chars[k] ==> i <= k && IsWhitespace(chars[k]) && r[k] == narrow
    decreases |chars| - i
  {
    if i + 1 >= |chars| then chars
    else
      var c := chars[i];
      if IsDigit(c) then
        NumberFrom(t, narrow, chars, i + 1, if i == 0 || !IsAlphabetic(chars[i - 1]) then true else series)
      else if IsWhitespace(c) then
        var chars' :=
          if series && (IsDigit(chars[i + 1]) || CharIsSymbol(t, chars, i + 1)) then chars[i := narrow] else chars;
        NumberFrom(t, narrow, chars', i + 1, series)
      else
        NumberFrom(t, narrow, chars, i + 1, false)
  }

  /** The first digit at or after `n`. */
  function FindDigit(v: string, n: nat): (r: Option<nat>)
    ensures r.Some? ==> n <= r.value < |v| && IsDigit(v[r.value])
                        && forall k :: n <= k < r.value ==> !IsDigit(v[k])
    ensures r.None? ==> forall k :: n <= k < |v| ==> !IsDigit(v[k])
    decreases |v| - n
  {
    if n >= |v| then None
    else if IsDigit(v[n]) then Some(n)
    else FindDigit(v, n + 1)
  }

  /** The number pass: nothing without a digit, else the loop from one position
      before the first digit. With a mark that is no letter, as every output
      format's is, it rewrites exactly the whitespace inside numbers that precedes
      a digit or a unit, to `narrow`, and leaves every other position as it was;
      a text without digits comes back unchanged. */
  function NumberPass(t: Thresholds, narrow: char, v: string): (r: string)
    ensures |r| == |v|
    ensures !IsAlphabetic(narrow) ==> forall k :: 0 <= k < |v| ==> r[k] == Spaced(t, narrow, v, k)
    ensures !IsAlphabetic(narrow) ==> forall k :: 0 <= k < |v| && r[k] != v[k] ==> IsWhitespace(v[k]) && r[k] == narrow
    ensures (forall k :: 0 <= k < |v| ==> !IsDigit(v[k])) ==> r == v
  {
    match FindDigit(v, 0)
    case None => v
    case Some(first) =>
      var start := if first > 1 then first - 1 else 0;
      NumberFromStart(t, narrow, v, start);
      NumberFrom(t, narrow, v, start, false)
  }

  // ---------------------------------------------------------------------------
  // What the loop rewrites
  // ---------------------------------------------------------------------------

  /** A digit that starts a number: not glued to a letter before it. */
  predicate NumberStart(v: string, d: nat)
    requires d < |v|
  {
    IsDigit(v[d]) && (d == 0 || !IsAlphabetic(v[d - 1]))
  }

  /** Only digits and whitespace in `v[a..b]`. */
  predicate DigitsOrSpaces(v: string, a: nat, b: nat)
    requires a <= b <= |v|
  {
    forall m :: a <= m < b ==> IsDigit(v[m]) || IsWhitespace(v[m])
  }

  /** Position `k` lies inside a number: some number start before it, followed by
      nothing but digits and whitespace up to `k`. */
  predicate InNumber(v: string, k: nat)
    requires k <= |v|
  {
    exists d :: 0 <= d < k && NumberStart(v, d) && DigitsOrSpaces(v, d + 1, k)
  }

  /** The number pass makes `v[k]` a narrow no-break space: a whitespace inside a
      number, followed by a digit or by what `char_is_symbol` takes for a unit. */
  predicate NumberSpaceAt(t: Thresholds, v: string, k: nat)
    requires k < |v|
  {
    k + 1 < |v| && IsWhitespace(v[k]) && InNumber(v, k) && (IsDigit(v[k + 1]) || CharIsSymbol(t, v, k + 1))
  }

  /** The reference result at position `k`. */
  function Spaced(t: Thresholds, narrow: char, v: string, k: nat): char
    requires k < |v|
  {
    if NumberSpaceAt(t, v, k) then narrow else v[k]
  }

  // ---------------------------------------------------------------------------
  // Proof
  // ---------------------------------------------------------------------------

  lemma InNumberStep(v: string, i: nat)
    requires i < |v|
    ensures NumberStart(v, i) ==> InNumber(v, i + 1)
    ensures IsDigit(v[i]) || IsWhitespace(v[i]) ==> (InNumber(v, i) ==> InNumber(v, i + 1))
    ensures !NumberStart(v, i) && InNumber(v, i + 1) ==> InNumber(v, i) && (IsDigit(v[i]) || IsWhitespace(v[i]))
  {
    if NumberStart(v, i) {
      assert DigitsOrSpaces(v, i + 1, i + 1);
    }
    if (IsDigit(v[i]) || IsWhitespace(v[i])) && InNumber(v, i) {
      var d :| 0 <= d < i && NumberStart(v, d) && DigitsOrSpaces(v, d + 1, i);
      assert DigitsOrSpaces(v, d + 1, i + 1);
    }
    if !NumberStart(v, i) && InNumber(v, i + 1) {
      var d :| 0 <= d < i + 1 && NumberStart(v, d) && DigitsOrSpaces(v, d + 1, i + 1);
      assert d < i;
      assert DigitsOrSpaces(v, d + 1, i);
      assert IsDigit(v[i]) || IsWhitespace(v[i]);
    }
  }

  /** Inside a number, the previous character is a digit or whitespace. */
  lemma InNumberBefore(v: string, k: nat)
    requires k <= |v| && InNumber(v, k)
    ensures k > 0 && (IsDigit(v[k - 1]) || IsWhitespace(v[k - 1]))
  {
    var d :| 0 <= d < k && NumberStart(v, d) && DigitsOrSpaces(v, d + 1, k);
    if d < k - 1 {
      assert IsDigit(v[k - 1]) || IsWhitespace(v[k - 1]);
    }
  }

  /** No number starts before the first digit. */
  lemma NotInNumberBeforeDigits(v: string, k: nat)
    requires k <= |v| && forall m :: 0 <= m < k ==> !IsDigit(v[m])
    ensures !InNumber(v, k)
  {
  }

  /** `v` and `w` agree from position `i` on. */
  predicate SameFrom(v: string, w: string, i: nat) {
    |v| == |w| && forall k :: i <= k < |v| ==> v[k] == w[k]
  }

  lemma {:induction false} FindAlphabeticFrame(v: string, w: string, n: nat)
    requires SameFrom(v, w, n)
    ensures FindAlphabetic(v, n) == FindAlphabetic(w, n)
    decreases |v| - n
  {
    if n < |v| {
      FindAlphabeticFrame(v, w, n + 1);
    }
  }

  lemma {:induction false} FindWhitespaceFrame(v: string, w: string, n: nat)
    requires SameFrom(v, w, n)
    ensures FindWhitespace(v, n) == FindWhitespace(w, n)
    decreases |v| - n
  {
    if n < |v| {
      FindWhitespaceFrame(v, w, n + 1);
    }
  }

  /** `get_next_word` looks only at `v[n..]`. */
  lemma GetNextWordFrame(v: string, w: string, n: nat)
    requires SameFrom(v, w, n) && WordStartOk(v, n)
    ensures WordStartOk(w, n) && GetNextWord(v, n) == GetNextWord(w, n)
  {
    FindAlphabeticFrame(v, w, n);
    var b := match FindAlphabetic(v, n) case Some(b) => b case None => n;
    FindWhitespaceFrame(v, w, b);
    var e := match FindWhitespace(v, b) case Some(x) => x - 1 case None => |v|;
    SliceFrame(v, w, n, b, e);
    assert GetNextWord(v, n) == v[b..e];
    assert GetNextWord(w, n) == w[b..e];
  }

  lemma SliceFrame(v: string, w: string, n: nat, b: nat, e: nat)
    requires SameFrom(v, w, n) && n <= b <= e <= |v|
    ensures v[b..e] == w[b..e]
  {
    assert forall k :: 0 <= k < e - b ==> v[b..e][k] == v[b + k];
  }

  /** `char_is_symbol` looks only at `v[i..]`. */
  lemma CharIsSymbolFrame(t: Thresholds, v: string, w: string, i: nat)
    requires i < |v| && SameFrom(v, w, i)
    ensures CharIsSymbol(t, v, i) == CharIsSymbol(t, w, i)
  {
    if WordStartOk(v, i) {
      GetNextWordFrame(v, w, i);
    }
  }

  /** The vector after `i` steps of the loop: the reference result before `i`, the
      input from `i` on. */
  predicate DoneUpTo(t: Thresholds, narrow: char, v: string, chars: string, i: nat)
    requires i <= |v|
  {
    && SameFrom(chars, v, i)
    && forall k :: 0 <= k < i ==> chars[k] == Spaced(t, narrow, v, k)
  }

  /** What one step needs to know about position `i`: the vector still holds the
      input there, its neighbour's case is the input's, and the flag's meaning. */
  lemma NumberStepFacts(t: Thresholds, narrow: char, v: string, chars: string, i: nat)
    requires !IsAlphabetic(narrow) && i + 1 < |v| && DoneUpTo(t, narrow, v, chars, i)
    ensures chars[i] == v[i] && chars[i + 1] == v[i + 1]
    ensures CharIsSymbol(t, chars, i + 1) == CharIsSymbol(t, v, i + 1)
    ensures i > 0 ==> IsAlphabetic(chars[i - 1]) == IsAlphabetic(v[i - 1])
    ensures NumberStart(v, i) ==> InNumber(v, i + 1)
    ensures IsDigit(v[i]) || IsWhitespace(v[i]) ==> (InNumber(v, i) ==> InNumber(v, i + 1))
    ensures !NumberStart(v, i) && InNumber(v, i + 1) ==> InNumber(v, i) && (IsDigit(v[i]) || IsWhitespace(v[i]))
    ensures IsDigit(v[i]) ==> !IsWhitespace(v[i])
  {
    CharIsSymbolFrame(t, chars, v, i + 1);
    if i > 0 {
      assert chars[i - 1] == Spaced(t, narrow, v, i - 1);
      assert IsAlphabetic(chars[i - 1]) == IsAlphabetic(v[i - 1]) by {
        CaseFacts(v[i - 1]);
      }
    }
    InNumberStep(v, i);
    CaseFacts(v[i]);
  }

  /** `DoneUpTo` extends by one position that holds its reference result. */
  lemma DoneUpToExtend(t: Thresholds, narrow: char, v: string, chars: string, chars': string, i: nat)
    requires i < |v| && DoneUpTo(t, narrow, v, chars, i)
    requires chars' == chars || chars' == chars[i := narrow]
    requires chars'[i] == Spaced(t, narrow, v, i)
    ensures DoneUpTo(t, narrow, v, chars', i + 1)
  {
  }

  /** One step of the loop keeps `DoneUpTo` and the meaning of the flag. */
  lemma NumberStep(t: Thresholds, narrow: char, v: string, chars: string, i: nat, series: bool)
    returns (chars': string, series': bool)
    requires !IsAlphabetic(narrow) && i + 1 < |v|
    requires DoneUpTo(t, narrow, v, chars, i) && (series <==> InNumber(v, i))
    ensures DoneUpTo(t, narrow, v, chars', i + 1) && (series' <==> InNumber(v, i + 1))
    ensures NumberFrom(t, narrow, chars, i, series) == NumberFrom(t, narrow, chars', i + 1, series')
  {
    NumberStepFacts(t, narrow, v, chars, i);
    var c := chars[i];
    if IsDigit(c) {
      chars', series' := chars, if i == 0 || !IsAlphabetic(chars[i - 1]) then true else series;
    } else if IsWhitespace(c) {
      chars' := if series && (IsDigit(chars[i + 1]) || CharIsSymbol(t, chars, i + 1)) then chars[i := narrow] else chars;
      series' := series;
    } else {
      chars', series' := chars, false;
    }
    DoneUpToExtend(t, narrow, v, chars, chars', i);
  }

  lemma {:induction false} NumberFromSpec(t: Thresholds, narrow: char, v: string, chars: string, i: nat, series: bool)
    requires !IsAlphabetic(narrow) && i <= |v|
    requires DoneUpTo(t, narrow, v, chars, i) && (series <==> InNumber(v, i))
    ensures forall k :: 0 <= k < |v| ==> NumberFrom(t, narrow, chars, i, series)[k] == Spaced(t, narrow, v, k)
    decreases |v| - i
  {
    if i + 1 >= |v| {
      forall k | i <= k < |v|
        ensures chars[k] == Spaced(t, narrow, v, k)
      {
        assert chars[k] == v[k];
      }
    } else {
      var chars', series' := NumberStep(t, narrow, v, chars, i, series);
      NumberFromSpec(t, narrow, v, chars', i + 1, series');
    }
  }

  /** The loop started before the first digit computes the reference result. */
  lemma NumberFromStart(t: Thresholds, narrow: char, v: string, start: nat)
    requires start <= |v| && forall m :: 0 <= m < start ==> !IsDigit(v[m])
    ensures !IsAlphabetic(narrow) ==>
              forall k :: 0 <= k < |v| ==> NumberFrom(t, narrow, v, start, false)[k] == Spaced(t, narrow, v, k)
  {
    if !IsAlphabetic(narrow) {
      NotInNumberBeforeDigits(v, start);
      forall k | 0 <= k < start
        ensures v[k] == Spaced(t, narrow, v, k)
      {
        NotInNumberBeforeDigits(v, k);
      }
      NumberFromSpec(t, narrow, v, v, start, false);
    }
  }
}
