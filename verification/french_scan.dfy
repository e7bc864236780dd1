/**
 * The look-ahead helpers of `FrenchFormatter` (src/lib/french.rs, repeated
 * unchanged in src/french.rs): `is_trouble`, `find_next`,
 * `is_next_char_uppercase`, `get_next_word`, `char_is_symbol` and
 * `find_closing_dash`, over the formatter's character vector.
 */
module FrenchScan {
  import opened Unicode
  import opened Common
  import opened Maybe
  import opened Clean

  /** The four guessing thresholds of the formatter. */
  datatype Thresholds = Thresholds(currency: nat, unit: nat, quote: nat, realWord: nat)

  /** `is_trouble`: the characters that call for a spacing decision. */
  predicate IsTrouble(c: char) {
    c == '?' || c == '!' || c == ';' || c == ':' || c == ClosingGuillemet || c == OpeningGuillemet
    || c == EmDash || c == EnDash
  }

  /** The three dashes that open or close an incise. */
  predicate IsDashChar(c: char) {
    c == '-' || c == EnDash || c == EmDash
  }

  /** `find_next`: the first position at or after `n` holding `c`. */
  function FindNext(v: string, c: char, n: nat): (r: Option<nat>)
    ensures r.Some? ==> n <= r.value < |v| && v[r.value] == c
                        && forall k :: n <= k < r.value ==> v[k] != c
    ensures r.None? ==> forall k :: n <= k < |v| ==> v[k] != c
    decreases |v| - n
  {
    if n >= |v| then None
    else if v[n] == c then Some(n)
    else FindNext(v, c, n + 1)
  }

  /** No cased letter in `v[n..j]`. */
  predicate Uncased(v: string, n: nat, j: nat)
    requires n <= j <= |v|
  {
    forall k :: n <= k < j ==> !IsUppercase(v[k]) && !IsLowercase(v[k])
  }

  /** `is_next_char_uppercase`: skipping whitespace, and every other character that
      has no case, the first cased letter at or after `n` is upper-case. */
  function IsNextCharUppercase(v: string, n: nat): (r: bool)
    ensures r <==> exists j :: n <= j < |v| && IsUppercase(v[j]) && Uncased(v, n, j)
    decreases |v| - n
  {
    if n >= |v| then false
    else if IsWhitespace(v[n]) then (CaseFacts(v[n]); IsNextCharUppercase(v, n + 1))
    else if IsUppercase(v[n]) then (assert Uncased(v, n, n); true)
    else if IsLowercase(v[n]) then false
    else IsNextCharUppercase(v, n + 1)
  }

  /** The first letter at or after `n`. */
  function FindAlphabetic(v: string, n: nat): (r: Option<nat>)
    ensures r.Some? ==> n <= r.value < |v| && IsAlphabetic(v[r.value])
                        && forall k :: n <= k < r.value ==> !IsAlphabetic(v[k])
    ensures r.None? ==> forall k :: n <= k < |v| ==> !IsAlphabetic(v[k])
    decreases |v| - n
  {
    if n >= |v| then None
    else if IsAlphabetic(v[n]) then Some(n)
    else FindAlphabetic(v, n + 1)
  }

  /** The first whitespace at or after `n`. */
  function FindWhitespace(v: string, n: nat): (r: Option<nat>)
    ensures r.Some? ==> n <= r.value < |v| && IsWhitespace(v[r.value])
                        && forall k :: n <= k < r.value ==> !IsWhitespace(v[k])
    ensures r.None? ==> forall k :: n <= k < |v| ==> !IsWhitespace(v[k])
    decreases |v| - n
  {
    if n >= |v| then None
    else if IsWhitespace(v[n]) then Some(n)
    else FindWhitespace(v, n + 1)
  }

  /** `get_next_word` does not panic: its end index `i - 1` does not fall before
      its beginning. That fails only when no letter follows `n` and `v[n]` is
      whitespace. */
  predicate WordStartOk(v: string, n: nat) {
    n <= |v| && (n == |v| || !IsWhitespace(v[n]) || FindAlphabetic(v, n).Some?)
  }

  /** `get_next_word`: from the first letter at or after `n` up to, but excluding,
      the character before the next whitespace, or up to the end. */
  function GetNextWord(v: string, n: nat): (r: string)
    requires WordStartOk(v, n)
    ensures forall k :: 0 <= k < |r| ==> !IsWhitespace(r[k])
    ensures n < |v| && IsAlphabetic(v[n]) ==>
              && n + |r| <= |v| && r == v[n..n + |r|]
              && (forall k :: n <= k < |v| && k <= n + |r| ==> !IsWhitespace(v[k]))
              && (n + |r| < |v| ==> n + |r| + 1 < |v| && IsWhitespace(v[n + |r| + 1]))
  {
    var beginning := match FindAlphabetic(v, n) case Some(b) => b case None => n;
    var end := match FindWhitespace(v, beginning) case Some(w) => w - 1 case None => |v|;
    assert beginning <= end by {
      if beginning < |v| {
        assert !IsWhitespace(v[beginning]) by {
          if FindAlphabetic(v, n).Some? {
            CaseFacts(v[beginning]);
          }
        }
      }
    }
    v[beginning..end]
  }

  /** At most `limit` characters, all upper-case: a currency code such as `EUR`. */
  predicate UpperCode(word: string, limit: nat) {
    |word| <= limit && forall k :: 0 <= k < |word| ==> IsUppercase(word[k])
  }

  /** `char_is_symbol`: does `v[i]`, right after a number and a space, start a unit
      or currency (`°`, a short lower-case unit, a short upper-case code, a single
      capital, or any other non-letter, non-space character)? */
  function CharIsSymbol(t: Thresholds, v: string, i: nat): (r: bool)
    requires i < |v|
    ensures r ==> !IsWhitespace(v[i])
    // before a letter: `°`, or a word short enough for a code or a unit
    ensures i + 1 < |v| && IsAlphabetic(v[i + 1]) && !IsAlphabetic(v[i]) ==> (r <==> v[i] == '°')
    ensures i + 1 < |v| && IsAlphabetic(v[i + 1]) && IsUppercase(v[i]) ==>
              (r <==> UpperCode(GetNextWord(v, i), t.currency))
    ensures i + 1 < |v| && IsAlphabetic(v[i + 1]) && IsAlphabetic(v[i]) && !IsUppercase(v[i]) ==>
              (r <==> |GetNextWord(v, i)| <= t.unit)
    // alone: any symbol, or a single capital
    ensures !(i + 1 < |v| && IsAlphabetic(v[i + 1])) ==>
              (r <==> (!IsAlphabetic(v[i]) && !IsWhitespace(v[i])) || IsUppercase(v[i]))
  {
    var isNextLetter := if i < |v| - 1 then IsAlphabetic(v[i + 1]) else false;
    CaseFacts(v[i]);
    if isNextLetter then
      if v[i] == '°' then true
      else if IsUppercase(v[i]) then
        var word := GetNextWord(v, i);
        if |word| > t.currency then false
        else forall k :: 0 <= k < |word| ==> IsUppercase(word[k])
      else if IsAlphabetic(v[i]) then
        |GetNextWord(v, i)| <= t.unit
      else false
    else
      if !IsAlphabetic(v[i]) && !IsWhitespace(v[i]) then true
      else IsUppercase(v[i])
  }

  /** A dash with a whitespace right before it: where an incise closes. */
  predicate SpacedDashAt(v: string, k: nat) {
    1 <= k < |v| && IsDashChar(v[k]) && IsWhitespace(v[k - 1])
  }

  /** `!` or `?` before an upper-case letter: the end of a sentence. */
  predicate BangStop(v: string, k: nat)
    requires k < |v|
  {
    (v[k] == '!' || v[k] == '?') && IsNextCharUppercase(v, k + 1)
  }

  /** `.` before an upper-case letter: possibly the end of a sentence. */
  predicate DotStop(v: string, k: nat)
    requires k < |v|
  {
    v[k] == '.' && IsNextCharUppercase(v, k + 1)
  }

  /** How the scan's current word changes on `c`: whitespace starts a new word,
      `!`, `?`, `.` and the dashes are left out of it, anything else is appended. */
  function Push(word: string, c: char): string {
    if c == '!' || c == '?' || c == '.' || IsDashChar(c) then word
    else if IsWhitespace(c) then []
    else word + [c]
  }

  /** The current word when the scan that started at `j` with `word` reaches `k`. */
  function WordAt(v: string, j: nat, word: string, k: nat): string
    requires k <= |v|
    decreases k
  {
    if k <= j then word else Push(WordAt(v, j, word, k - 1), v[k - 1])
  }

  /** A word that is not an abbreviation: lower-case first, or longer than
      `realWord` bytes. */
  predicate RealWord(t: Thresholds, word: string) {
    |word| > 0 && (!IsUppercase(word[0]) || Utf8Length(word) > t.realWord)
  }

  /** Where the scan from `j` gives up: `!` or `?` before an upper-case letter, or
      `.` before one after a real word. */
  predicate SentenceEnd(t: Thresholds, v: string, j: nat, word: string, k: nat)
    requires k < |v|
  {
    BangStop(v, k) || (DotStop(v, k) && RealWord(t, WordAt(v, j, word, k)))
  }

  /** No sentence end in `v[j..d]` for the scan from `j`. */
  predicate NoStopBetween(t: Thresholds, v: string, j: nat, word: string, d: nat)
    requires j <= d <= |v|
  {
    forall k :: j <= k < d ==> !SentenceEnd(t, v, j, word, k)
  }

  /** Moving the start of the scan one character on, with the word updated,
      changes no word the scan sees later. */
  lemma {:induction false} WordAtShift(v: string, j: nat, word: string, k: nat)
    requires j < k <= |v|
    ensures WordAt(v, j + 1, Push(word, v[j]), k) == WordAt(v, j, word, k)
    decreases k
  {
    if k > j + 1 {
      WordAtShift(v, j, word, k - 1);
    }
  }

  /** The scan of `find_closing_dash` from `j`, with the current word (the non-space
      characters since the last whitespace, minus the punctuation it handles). A `.`
      before an upper-case letter ends the sentence unless the word before it looks
      like an abbreviation: upper-case first and at most `realWord` bytes long. A
      result is the whitespace before the first spaced dash, with no sentence end
      before it. */
  function ClosingDashFrom(t: Thresholds, v: string, j: nat, word: string): (r: Option<nat>)
    requires j >= 1 || j >= |v| || !IsDashChar(v[j])
    ensures r.Some? ==> && j <= r.value + 1 < |v| && SpacedDashAt(v, r.value + 1)
                        && forall k :: j <= k <= r.value ==> !SpacedDashAt(v, k) && !SentenceEnd(t, v, j, word, k)
    decreases |v| - j
  {
    if j >= |v| then None
    else
      var c := v[j];
      if c == '!' || c == '?' then
        if IsNextCharUppercase(v, j + 1) then None
        else ClosingDashShift(t, v, j, word, word); ClosingDashFrom(t, v, j + 1, word)
      else if IsDashChar(c) then
        if IsWhitespace(v[j - 1]) then Some(j - 1)
        else ClosingDashShift(t, v, j, word, word); ClosingDashFrom(t, v, j + 1, word)
      else if c == '.' then
        if !IsNextCharUppercase(v, j + 1) then ClosingDashShift(t, v, j, word, word); ClosingDashFrom(t, v, j + 1, word)
        else if |word| > 0 && (!IsUppercase(word[0]) || Utf8Length(word) > t.realWord) then None
        else ClosingDashShift(t, v, j, word, word); ClosingDashFrom(t, v, j + 1, word)
      else if IsWhitespace(c) then ClosingDashShift(t, v, j, word, []); ClosingDashFrom(t, v, j + 1, [])
      else ClosingDashShift(t, v, j, word, word + [c]); ClosingDashFrom(t, v, j + 1, word + [c])
  }

  /** The sentence ends the scan from `j + 1` sees, with the word updated on
      `v[j]`, are those the scan from `j` sees after `j`. */
  lemma ClosingDashShift(t: Thresholds, v: string, j: nat, word: string, next: string)
    requires j < |v| && next == Push(word, v[j])
    ensures forall k :: j < k < |v| ==> (SentenceEnd(t, v, j + 1, next, k) <==> SentenceEnd(t, v, j, word, k))
  {
    forall k | j < k < |v|
      ensures SentenceEnd(t, v, j + 1, next, k) <==> SentenceEnd(t, v, j, word, k)
    {
      WordAtShift(v, j, word, k);
    }
  }

  lemma NoStopShift(t: Thresholds, v: string, j: nat, word: string, next: string, d: nat)
    requires j < d <= |v| && next == Push(word, v[j])
    requires NoStopBetween(t, v, j, word, d)
    ensures NoStopBetween(t, v, j + 1, next, d)
  {
    var j' := j + 1;
    forall k | j' <= k < d
      ensures !SentenceEnd(t, v, j', next, k)
    {
      WordAtShift(v, j, word, k);
      assert !SentenceEnd(t, v, j, word, k);
    }
  }

  /** A spaced dash with no sentence end before it is found: the scan does not
      stop early. */
  lemma {:induction false} ClosingDashComplete(t: Thresholds, v: string, j: nat, word: string, d: nat)
    requires j >= 1 || j >= |v| || !IsDashChar(v[j])
    requires j <= d < |v| && SpacedDashAt(v, d) && NoStopBetween(t, v, j, word, d)
    ensures ClosingDashFrom(t, v, j, word).Some?
    decreases d - j
  {
    if d > j && !(IsDashChar(v[j]) && IsWhitespace(v[j - 1])) {
      assert !SentenceEnd(t, v, j, word, j);
      var next := Push(word, v[j]);
      ClosingDashShift(t, v, j, word, next);
      NoStopShift(t, v, j, word, next, d);
      ClosingDashComplete(t, v, j + 1, next, d);
      assert ClosingDashFrom(t, v, j, word) == ClosingDashFrom(t, v, j + 1, next);
    }
  }

  /** `find_closing_dash`: the whitespace before the dash that closes the incise opened
      just before `n`, unless the sentence seems to end first. */
  function FindClosingDash(t: Thresholds, v: string, n: nat): (r: Option<nat>)
    requires n >= 1 || n >= |v| || !IsDashChar(v[n])
    ensures r.Some? ==> && n <= r.value + 1 < |v| && SpacedDashAt(v, r.value + 1)
                        && forall k :: n <= k <= r.value ==> !SpacedDashAt(v, k) && !SentenceEnd(t, v, n, [], k)
    ensures forall d :: n <= d < |v| && SpacedDashAt(v, d) && NoStopBetween(t, v, n, [], d) ==> r.Some?
  {
    ClosingDashCompleteAll(t, v, n);
    ClosingDashFrom(t, v, n, [])
  }

  /** No closing dash exactly when a sentence end (`!` or `?` before a capital, or `.`
      before one after a real word) comes before every spaced dash ahead. */
  lemma NoClosingDashIff(t: Thresholds, v: string, n: nat)
    requires n >= 1 || n >= |v| || !IsDashChar(v[n])
    ensures FindClosingDash(t, v, n).None? <==>
              forall d :: n <= d < |v| && SpacedDashAt(v, d) ==> !NoStopBetween(t, v, n, [], d)
  {
    var r := FindClosingDash(t, v, n);
    if r.Some? {
      assert NoStopBetween(t, v, n, [], r.value + 1);
    }
  }

  lemma ClosingDashCompleteAll(t: Thresholds, v: string, n: nat)
    requires n >= 1 || n >= |v| || !IsDashChar(v[n])
    ensures forall d :: n <= d < |v| && SpacedDashAt(v, d) && NoStopBetween(t, v, n, [], d) ==>
              ClosingDashFrom(t, v, n, []).Some?
  {
    forall d | n <= d < |v| && SpacedDashAt(v, d) && NoStopBetween(t, v, n, [], d)
      ensures ClosingDashFrom(t, v, n, []).Some?
    {
      ClosingDashComplete(t, v, n, [], d);
    }
  }
}
