/** An optional value, for the searches that may find nothing. */
module Maybe {
  datatype Option<T> = None | Some(value: T)
}

/** The three non-breaking spaces and the narrow notion of "space" shared by the passes. */
module Common {
  import opened Unicode

  /** NO-BREAK SPACE, U+00A0. */
  const NbChar: char := '\U{00A0}'
  /** NARROW NO-BREAK SPACE, U+202F. */
  const NbCharNarrow: char := '\U{202F}'
  /** EN SPACE, U+2002 (called a demi em space by the formatter). */
  const NbCharEm: char := '\U{2002}'

  /** `common::is_whitespace`: the plain space and the two no-break spaces, but not
      tabs, newlines or the en space. */
  predicate IsSpaceLike(c: char) {
    c == ' ' || c == NbChar || c == NbCharNarrow
  }

  /** The constants and the space-like set as the formatter relies on them. */
  lemma CommonFacts()
    ensures NbChar != NbCharNarrow && NbChar != NbCharEm && NbCharNarrow != NbCharEm
    ensures IsSpaceLike(' ') && IsSpaceLike(NbChar) && IsSpaceLike(NbCharNarrow)
    ensures !IsSpaceLike('\t') && !IsSpaceLike('\n') && !IsSpaceLike(NbCharEm)
    ensures forall c :: IsSpaceLike(c) ==> IsWhitespace(c) && !IsAlphanumeric(c)
    ensures IsWhitespace(NbCharEm) && !IsAlphanumeric(NbCharEm)
  {
  }
}

/** Slicing facts the scans' proofs use, stated once for any text. */
module SeqFacts {
  /** Copying `s[i]` in front of a scan that copied `s[i + 1..j]`. */
  lemma CopyStep(s: string, i: nat, j: nat, whole: string, rest: string, d: string)
    requires i < j <= |s|
    requires whole == [s[i]] + rest && rest == s[i + 1..j] + d
    ensures whole == s[i..j] + d
  {
    assert s[i..j] == [s[i]] + s[i + 1..j];
  }

  /** Undoing a scan piece by piece: the undone head `s[i..i + n]` before the undone rest. */
  lemma UndoStep(s: string, i: nat, n: nat, whole: string, head: string, rest: string)
    requires i + n <= |s|
    requires whole == head + rest && head == s[i..i + n] && rest == s[i + n..]
    ensures whole == s[i..]
  {
    assert s[i..] == s[i..i + n] + s[i + n..];
  }

  /** Decoding piece by piece: the character at `i` before the decoded rest. */
  lemma ConsStep(s: string, i: nat, whole: string, rest: string)
    requires i < |s| && whole == [s[i]] + rest && rest == s[i + 1..]
    ensures whole == s[i..]
  {
    assert s[i..] == [s[i]] + s[i + 1..];
  }

}
