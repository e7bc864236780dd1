/**
 * The escapers of `escape` (src/lib/escape.rs): `html`, `tex`, `quotes` and
 * `nb_spaces_tex`. Each one is a fixed table from characters to their codes; `tex`
 * also breaks `--` so that TeX does not turn it into a ligature.
 *
 * The source scans UTF-8 bytes for `html` and `tex`, but every character these
 * two look at is ASCII. By section 3 of RFC 3629 an ASCII byte never occurs
 * inside the encoding of another character, so scanning characters gives the
 * same result.
 */
module Escape {
  import opened Common
  import opened Maybe
  import opened SeqFacts

  // ---------------------------------------------------------------------------
  // Fixed-table escaping
  // ---------------------------------------------------------------------------

  /** A fixed-table escaper. Each character in the table's domain is replaced by its
      code and every other character is copied. With `breakDashes`, a `-` followed by
      another `-` becomes `-{}`. */
  datatype Escaper = Escaper(table: map<char, string>, breakDashes: bool)

  /** The prefilter of the escaper: what its regex or `position` search looks for. */
  predicate IsTrigger(e: Escaper, c: char) {
    c in e.table || (e.breakDashes && c == '-')
  }

  /** Every code is non-empty. */
  predicate WellFormed(e: Escaper) {
    forall c :: c in e.table ==> |e.table[c]| >= 1
  }

  /** The character after `i`, or the space that `tex` appends as a sentinel. */
  function NextOr(s: string, i: nat): char
    requires i < |s|
  {
    if i + 1 < |s| then s[i + 1] else ' '
  }

  /** What the escaper emits for `c` when `next` follows it. */
  function CodeOf(e: Escaper, c: char, next: char): string {
    if e.breakDashes && c == '-' then (if next == '-' then "-{}" else "-")
    else if c in e.table then e.table[c]
    else [c]
  }

  /** The escaping loop from position `i`. */
  function EscapeFrom(e: Escaper, s: string, i: nat): string
    requires i <= |s|
    decreases |s| - i
  {
    if i == |s| then [] else CodeOf(e, s[i], NextOr(s, i)) + EscapeFrom(e, s, i + 1)
  }

  function FindTrigger(e: Escaper, s: string, i: nat): (r: Option<nat>)
    requires i <= |s|
    ensures r.Some? ==> i <= r.value < |s| && IsTrigger(e, s[r.value])
                        && forall k :: i <= k < r.value ==> !IsTrigger(e, s[k])
    ensures r.None? ==> forall k :: i <= k < |s| ==> !IsTrigger(e, s[k])
    decreases |s| - i
  {
    if i == |s| then None
    else if IsTrigger(e, s[i]) then Some(i)
    else FindTrigger(e, s, i + 1)
  }

  /** The shape every escaper of the source shares: the input itself when the
      prefilter finds nothing, else the prefix before the first trigger followed by
      the escaping loop from there. */
  function EscapeWith(e: Escaper, s: string): (r: string)
    ensures (forall k :: 0 <= k < |s| ==> !IsTrigger(e, s[k])) ==> r == s
  {
    match FindTrigger(e, s, 0)
    case None => s
    case Some(first) => s[..first] + EscapeFrom(e, s, first)
  }

  /** No trigger in `s[i..j]`. */
  predicate Untriggered(e: Escaper, s: string, i: nat, j: nat)
    requires i <= j <= |s|
  {
    forall k :: i <= k < j ==> !IsTrigger(e, s[k])
  }

  /** One step of the loop: the code of `s[i]` before the rest. */
  lemma EscapeFromStep(e: Escaper, s: string, i: nat)
    requires i < |s|
    ensures EscapeFrom(e, s, i) == CodeOf(e, s[i], NextOr(s, i)) + EscapeFrom(e, s, i + 1)
  {
  }

  lemma EscapeFromCopy(e: Escaper, s: string, i: nat)
    requires i < |s| && !IsTrigger(e, s[i])
    ensures EscapeFrom(e, s, i) == [s[i]] + EscapeFrom(e, s, i + 1)
  {
  }

  lemma {:induction false} EscapeCopiesUntriggered(e: Escaper, s: string, i: nat, j: nat)
    requires i <= j <= |s| && Untriggered(e, s, i, j)
    ensures EscapeFrom(e, s, i) == s[i..j] + EscapeFrom(e, s, j)
    decreases j - i
  {
    if i < j {
      assert !IsTrigger(e, s[i]);
      EscapeFromCopy(e, s, i);
      EscapeCopiesUntriggered(e, s, i + 1, j);
      CopyStep(s, i, j, EscapeFrom(e, s, i), EscapeFrom(e, s, i + 1), EscapeFrom(e, s, j));
    }
  }

  /** The fast path agrees with running the loop over the whole text. */
  lemma EscapeScan(e: Escaper, s: string)
    ensures EscapeWith(e, s) == EscapeFrom(e, s, 0)
  {
    match FindTrigger(e, s, 0)
    case None =>
      EscapeCopiesUntriggered(e, s, 0, |s|);
      assert s[0..|s|] == s;
    case Some(first) =>
      EscapeCopiesUntriggered(e, s, 0, first);
  }

  lemma {:induction false} EscapeFromLength(e: Escaper, s: string, i: nat)
    requires i <= |s| && WellFormed(e)
    ensures |EscapeFrom(e, s, i)| >= |s| - i
    decreases |s| - i
  {
    if i < |s| {
      EscapeFromLength(e, s, i + 1);
    }
  }

  /** Position `k` is copied: its code is the character itself. */
  predicate CopiedAt(e: Escaper, s: string, k: nat)
    requires k < |s|
  {
    CodeOf(e, s[k], NextOr(s, k)) == [s[k]]
  }

  lemma {:induction false} EscapeFromUnchangedIff(e: Escaper, s: string, i: nat)
    requires i <= |s| && WellFormed(e)
    ensures EscapeFrom(e, s, i) == s[i..] <==> forall k :: i <= k < |s| ==> CopiedAt(e, s, k)
    decreases |s| - i
  {
    if i < |s| {
      EscapeFromUnchangedIff(e, s, i + 1);
      EscapeFromLength(e, s, i + 1);
      EscapeFromStep(e, s, i);
      var code := CodeOf(e, s[i], NextOr(s, i));
      var rest := EscapeFrom(e, s, i + 1);
      assert s[i..] == [s[i]] + s[i + 1..];
      if code + rest == s[i..] {
        assert |code| >= 1;
        if |code| == 1 {
          assert code[0] == (code + rest)[0] == s[i];
          assert code == [s[i]];
          assert rest == (code + rest)[1..] == s[i + 1..];
        } else {
          assert false;
        }
        assert CopiedAt(e, s, i);
        assert forall k :: i <= k < |s| ==> CopiedAt(e, s, k);
      }
      if forall k :: i <= k < |s| ==> CopiedAt(e, s, k) {
        assert CopiedAt(e, s, i);
        assert forall k :: i + 1 <= k < |s| ==> CopiedAt(e, s, k);
      }
    } else {
      assert s[i..] == [];
    }
  }

  /** An escaper leaves a text unchanged exactly when it copies every position of it. */
  lemma EscapeUnchangedIff(e: Escaper, s: string)
    requires WellFormed(e)
    ensures EscapeWith(e, s) == s <==> forall k :: 0 <= k < |s| ==> CopiedAt(e, s, k)
  {
    EscapeScan(e, s);
    EscapeFromUnchangedIff(e, s, 0);
    assert s[0..] == s;
  }

  /** The two escapers emit the same code at every position of `s` from `i` on. */
  predicate SameCodesFrom(e1: Escaper, e2: Escaper, s: string, i: nat)
    requires i <= |s|
  {
    forall k :: i <= k < |s| ==> CodeOf(e1, s[k], NextOr(s, k)) == CodeOf(e2, s[k], NextOr(s, k))
  }

  lemma {:induction false} EscapeFromAgree(e1: Escaper, e2: Escaper, s: string, i: nat)
    requires i <= |s| && SameCodesFrom(e1, e2, s, i)
    ensures EscapeFrom(e1, s, i) == EscapeFrom(e2, s, i)
    decreases |s| - i
  {
    if i < |s| {
      assert CodeOf(e1, s[i], NextOr(s, i)) == CodeOf(e2, s[i], NextOr(s, i));
      EscapeFromAgree(e1, e2, s, i + 1);
    }
  }

  /** Two escapers that emit the same codes on `s` give the same output, whatever
      their prefilters find. */
  lemma EscapeAgree(e1: Escaper, e2: Escaper, s: string)
    requires SameCodesFrom(e1, e2, s, 0)
    ensures EscapeWith(e1, s) == EscapeWith(e2, s)
  {
    EscapeScan(e1, s);
    EscapeScan(e2, s);
    EscapeFromAgree(e1, e2, s, 0);
  }

  /** An escaper whose codes never contain `x` removes every `x`. */
  lemma {:induction false} EscapeFromAvoids(e: Escaper, s: string, i: nat, x: char)
    requires i <= |s|
    requires forall c, n :: x !in CodeOf(e, c, n)
    ensures x !in EscapeFrom(e, s, i)
    decreases |s| - i
  {
    if i < |s| {
      EscapeFromAvoids(e, s, i + 1, x);
      assert x !in CodeOf(e, s[i], NextOr(s, i));
    }
  }

  // ---------------------------------------------------------------------------
  // html
  // ---------------------------------------------------------------------------

  /** `html`: `<`, `>` and `&` to their entities. */
  const HtmlTable: map<char, string> := map['<' := "&lt;", '>' := "&gt;", '&' := "&amp;"]

  function Html(s: string): (r: string)
    ensures (forall k :: 0 <= k < |s| ==> s[k] != '<' && s[k] != '>' && s[k] != '&') ==> r == s
  {
    EscapeWith(Escaper(HtmlTable, false), s)
  }

  /** Reads one entity or one character back. */
  function HtmlToken(t: string): (r: (char, nat))
    requires |t| > 0
    ensures 1 <= r.1 <= |t|
  {
    if t[0] == '&' && |t| >= 4 && t[1] == 'l' then ('<', 4)
    else if t[0] == '&' && |t| >= 4 && t[1] == 'g' then ('>', 4)
    else if t[0] == '&' && |t| >= 5 && t[1] == 'a' then ('&', 5)
    else (t[0], 1)
  }

  /** Decodes the three entities `html` produces. */
  function HtmlDecode(t: string): string
    decreases |t|
  {
    if |t| == 0 then [] else [HtmlToken(t).0] + HtmlDecode(t[HtmlToken(t).1..])
  }

  /** Decoding the code of one character gives the character back, whatever follows. */
  lemma HtmlDecodeStep(c: char, t: string)
    ensures HtmlDecode(CodeOf(Escaper(HtmlTable, false), c, ' ') + t) == [c] + HtmlDecode(t)
  {
    var code := CodeOf(Escaper(HtmlTable, false), c, ' ');
    var u := code + t;
    assert u[..|code|] == code && u[|code|..] == t;
    assert HtmlToken(u) == (c, |code|);
  }

  lemma HtmlDecodeAt(s: string, i: nat)
    requires i < |s|
    ensures HtmlDecode(EscapeFrom(Escaper(HtmlTable, false), s, i))
            == [s[i]] + HtmlDecode(EscapeFrom(Escaper(HtmlTable, false), s, i + 1))
  {
    var e := Escaper(HtmlTable, false);
    EscapeFromStep(e, s, i);
    assert CodeOf(e, s[i], NextOr(s, i)) == CodeOf(e, s[i], ' ');
    HtmlDecodeStep(s[i], EscapeFrom(e, s, i + 1));
  }

  lemma {:induction false} HtmlFromRoundTrip(s: string, i: nat)
    requires i <= |s|
    ensures HtmlDecode(EscapeFrom(Escaper(HtmlTable, false), s, i)) == s[i..]
    decreases |s| - i
  {
    if i < |s| {
      var e := Escaper(HtmlTable, false);
      HtmlFromRoundTrip(s, i + 1);
      HtmlDecodeAt(s, i);
      ConsStep(s, i, HtmlDecode(EscapeFrom(e, s, i)), HtmlDecode(EscapeFrom(e, s, i + 1)));
    } else {
      assert s[i..] == [];
    }
  }

  /** `html` loses nothing: decoding the entities gives the input back, for every
      input. */
  lemma HtmlRoundTrip(s: string)
    ensures HtmlDecode(Html(s)) == s
  {
    EscapeScan(Escaper(HtmlTable, false), s);
    HtmlFromRoundTrip(s, 0);
    assert s[0..] == s;
  }

  /** The output of `html` holds no `<` or `>`. */
  lemma HtmlNoAngles(s: string)
    ensures '<' !in Html(s) && '>' !in Html(s)
  {
    var e := Escaper(HtmlTable, false);
    EscapeScan(e, s);
    EscapeFromAvoids(e, s, 0, '<');
    EscapeFromAvoids(e, s, 0, '>');
  }

  /** `html` changes the text exactly when it holds one of the three escaped
      characters. */
  lemma HtmlUnchangedIff(s: string)
    ensures Html(s) == s <==> forall k :: 0 <= k < |s| ==> s[k] != '<' && s[k] != '>' && s[k] != '&'
  {
    var e := Escaper(HtmlTable, false);
    EscapeUnchangedIff(e, s);
    forall k | 0 <= k < |s|
      ensures CopiedAt(e, s, k) <==> s[k] != '<' && s[k] != '>' && s[k] != '&'
    {
    }
  }

  // ---------------------------------------------------------------------------
  // Character-for-character tables
  // ---------------------------------------------------------------------------

  /** An escaper that replaces characters by single characters. */
  predicate OneForOne(e: Escaper) {
    !e.breakDashes && forall c :: c in e.table ==> |e.table[c]| == 1
  }

  /** The character that a one-for-one escaper puts in place of `c`. */
  function Subst(e: Escaper, c: char): char
    requires OneForOne(e)
  {
    if c in e.table then e.table[c][0] else c
  }

  lemma {:induction false} OneForOneFromPointwise(e: Escaper, s: string, i: nat)
    requires i <= |s| && OneForOne(e)
    ensures |EscapeFrom(e, s, i)| == |s| - i
    ensures forall k :: i <= k < |s| ==> EscapeFrom(e, s, i)[k - i] == Subst(e, s[k])
    decreases |s| - i
  {
    if i < |s| {
      OneForOneFromPointwise(e, s, i + 1);
      EscapeFromStep(e, s, i);
      var x := Subst(e, s[i]);
      assert CodeOf(e, s[i], NextOr(s, i)) == [x];
      var r := EscapeFrom(e, s, i);
      var rest := EscapeFrom(e, s, i + 1);
      assert r == [x] + rest;
      forall k | i <= k < |s|
        ensures r[k - i] == Subst(e, s[k])
      {
        if k > i {
          assert r[k - i] == rest[k - (i + 1)];
        }
      }
    }
  }

  /** A one-for-one escaper keeps the length and substitutes position by position. */
  lemma OneForOnePointwise(e: Escaper, s: string)
    requires OneForOne(e)
    ensures |EscapeWith(e, s)| == |s|
    ensures forall k :: 0 <= k < |s| ==> EscapeWith(e, s)[k] == Subst(e, s[k])
  {
    EscapeScan(e, s);
    OneForOneFromPointwise(e, s, 0);
  }

  // ---------------------------------------------------------------------------
  // quotes
  // ---------------------------------------------------------------------------

  /** `quotes`: every `"` becomes `'`. */
  const QuotesEscaper: Escaper := Escaper(map['"' := "'"], false)

  function Quotes(s: string): (r: string)
    ensures '"' !in s ==> r == s
  {
    EscapeWith(QuotesEscaper, s)
  }

  /** `quotes` keeps the length, turns each `"` into `'`, keeps every other character,
      and is idempotent. */
  lemma QuotesProperties(s: string)
    ensures |Quotes(s)| == |s|
    ensures forall k :: 0 <= k < |s| ==> Quotes(s)[k] == (if s[k] == '"' then '\'' else s[k])
    ensures '"' !in Quotes(s)
    ensures Quotes(Quotes(s)) == Quotes(s)
  {
    OneForOnePointwise(QuotesEscaper, s);
    OneForOnePointwise(QuotesEscaper, Quotes(s));
  }

  // ---------------------------------------------------------------------------
  // tex
  // ---------------------------------------------------------------------------

  /** The codes of `tex` (src/lib/escape.rs). */
  const TexTable: map<char, string> := map[
    '&' := "\\&", '%' := "\\%", '$' := "\\$", '#' := "\\#", '_' := "\\_",
    '{' := "\\{", '}' := "\\}", '[' := "{[}", ']' := "{]}",
    '~' := "\\textasciitilde{}", '^' := "\\textasciicircum{}",
    '<' := "\\textless{}", '>' := "\\textgreater{}", '!' := "!{}",
    '\\' := "\\textbackslash{}"]

  const TexEscaper: Escaper := Escaper(TexTable, true)

  function Tex(s: string): (r: string)
    ensures (forall k :: 0 <= k < |s| ==> !IsTrigger(TexEscaper, s[k])) ==> r == s
  {
    EscapeWith(TexEscaper, s)
  }

  /** A TeX escaper: it breaks `--`, escapes `\\` and `{`, and gives each character it
      escapes the code `tex` gives it. Both generations of `tex` are TeX escapers. */
  predicate TexFamily(e: Escaper) {
    e.breakDashes && '\\' in e.table && '{' in e.table && TexSubTable(e.table)
  }

  /** Every code of `m` is the code `tex` gives the same character. */
  predicate TexSubTable(m: map<char, string>) {
    forall c :: c in m ==> c in TexTable && m[c] == TexTable[c]
  }

  /** Reads one escape sequence or one character back, by the characters that tell
      the codes of `tex` apart. */
  function TexToken(t: string): (r: (char, nat))
    requires |t| > 0
    ensures 1 <= r.1 <= |t|
  {
    if t[0] == '\\' && |t| >= 2 && t[1] != 't' then (t[1], 2)
    else if t[0] == '\\' && |t| >= 16 && t[5] == 'b' then ('\\', 16)
    else if t[0] == '\\' && |t| >= 11 && t[5] == 'l' then ('<', 11)
    else if t[0] == '\\' && |t| >= 14 && t[5] == 'g' then ('>', 14)
    else if t[0] == '\\' && |t| >= 18 && t[5] == 'a' && t[10] == 'c' then ('^', 18)
    else if t[0] == '\\' && |t| >= 17 && t[5] == 'a' then ('~', 17)
    else if t[0] == '{' && |t| >= 3 && t[2] == '}' then (t[1], 3)
    else if t[0] == '!' && |t| >= 3 && t[1] == '{' && t[2] == '}' then ('!', 3)
    else if t[0] == '-' && |t| >= 3 && t[1] == '{' && t[2] == '}' then ('-', 3)
    else (t[0], 1)
  }

  /** Decodes what a TeX escaper produces. */
  function TexDecode(t: string): string
    decreases |t|
  {
    if |t| == 0 then [] else [TexToken(t).0] + TexDecode(t[TexToken(t).1..])
  }

  /** No output of a TeX escaper starts with `{}`. */
  predicate NoBracePairAhead(t: string) {
    !(|t| >= 2 && t[0] == '{' && t[1] == '}')
  }

  lemma TexCodeHead(e: Escaper, c: char, n: char)
    requires TexFamily(e)
    ensures |CodeOf(e, c, n)| >= 1
    ensures CodeOf(e, c, n)[0] != '{' || (|CodeOf(e, c, n)| >= 2 && CodeOf(e, c, n)[1] != '}')
  {
    if c in e.table {
      assert e.table[c] == TexTable[c];
    }
  }

  lemma TexFromNoBracePair(e: Escaper, s: string, i: nat)
    requires i <= |s| && TexFamily(e)
    ensures NoBracePairAhead(EscapeFrom(e, s, i))
  {
    if i < |s| {
      var code := CodeOf(e, s[i], NextOr(s, i));
      TexCodeHead(e, s[i], NextOr(s, i));
      var u := code + EscapeFrom(e, s, i + 1);
      assert u[0] == code[0];
      if |code| >= 2 {
        assert u[1] == code[1];
      }
    }
  }

  /** Decoding the code of one character gives the character back, when what
      follows is itself an output of the loop. */
  lemma TexDecodeStep(e: Escaper, c: char, n: char, t: string)
    requires TexFamily(e) && NoBracePairAhead(t)
    ensures TexDecode(CodeOf(e, c, n) + t) == [c] + TexDecode(t)
  {
    var code := CodeOf(e, c, n);
    var u := code + t;
    assert u[..|code|] == code && u[|code|..] == t;
    if c in e.table && c != '-' {
      assert code == TexTable[c];
    } else if |code| == 1 && |t| >= 2 {
      assert u[1] == t[0] && u[2] == t[1];
    }
    assert TexToken(u) == (c, |code|);
  }

  /** Decoding the loop from `i` reads `s[i]` back first. */
  lemma TexDecodeAt(e: Escaper, s: string, i: nat)
    requires i < |s| && TexFamily(e)
    ensures TexDecode(EscapeFrom(e, s, i)) == [s[i]] + TexDecode(EscapeFrom(e, s, i + 1))
  {
    EscapeFromStep(e, s, i);
    TexFromNoBracePair(e, s, i + 1);
    TexDecodeStep(e, s[i], NextOr(s, i), EscapeFrom(e, s, i + 1));
  }

  lemma {:induction false} TexFromRoundTrip(e: Escaper, s: string, i: nat)
    requires i <= |s| && TexFamily(e)
    ensures TexDecode(EscapeFrom(e, s, i)) == s[i..]
    decreases |s| - i
  {
    if i < |s| {
      TexFromRoundTrip(e, s, i + 1);
      TexDecodeAt(e, s, i);
      ConsStep(s, i, TexDecode(EscapeFrom(e, s, i)), TexDecode(EscapeFrom(e, s, i + 1)));
    } else {
      assert s[i..] == [];
    }
  }

  /** A character is copied by a TeX escaper exactly when it is not in its table
      and is not the first of two dashes. */
  lemma TexCopied(e: Escaper, c: char, n: char)
    requires TexFamily(e)
    ensures CodeOf(e, c, n) == [c] <==> c !in e.table && !(c == '-' && n == '-')
  {
    if c in e.table {
      assert |TexTable[c]| >= 2;
    }
  }

  /** Two dashes in a row at `k`. */
  predicate DashPairAt(s: string, k: nat)
    requires k < |s|
  {
    s[k] == '-' && k + 1 < |s| && s[k + 1] == '-'
  }

  /** A TeX escaper loses nothing: decoding its escapes gives the input back, for
      every input. It changes the text exactly when the text holds a character of
      its table or two dashes in a row. */
  lemma TexFamilyProperties(e: Escaper, s: string)
    requires TexFamily(e)
    ensures TexDecode(EscapeWith(e, s)) == s
    ensures EscapeWith(e, s) == s <==> forall k :: 0 <= k < |s| ==> s[k] !in e.table && !DashPairAt(s, k)
  {
    EscapeScan(e, s);
    TexFromRoundTrip(e, s, 0);
    assert s[0..] == s;
    assert WellFormed(e) by {
      forall c | c in e.table
        ensures |e.table[c]| >= 1
      {
        assert |TexTable[c]| >= 2;
      }
    }
    EscapeUnchangedIff(e, s);
    if forall k :: 0 <= k < |s| ==> CopiedAt(e, s, k) {
      forall k | 0 <= k < |s|
        ensures s[k] !in e.table && !DashPairAt(s, k)
      {
        assert CopiedAt(e, s, k);
        TexCopied(e, s[k], NextOr(s, k));
      }
    }
    if forall k :: 0 <= k < |s| ==> s[k] !in e.table && !DashPairAt(s, k) {
      forall k | 0 <= k < |s|
        ensures CopiedAt(e, s, k)
      {
        TexCopied(e, s[k], NextOr(s, k));
      }
    }
  }

  /** `tex` loses nothing and changes the text exactly when the text holds a
      reserved character or `--`. */
  lemma TexProperties(s: string)
    ensures TexDecode(Tex(s)) == s
    ensures Tex(s) == s <==> forall k :: 0 <= k < |s| ==> s[k] !in TexTable && !DashPairAt(s, k)
  {
    TexFamilyProperties(TexEscaper, s);
  }

  // ---------------------------------------------------------------------------
  // nb_spaces_tex
  // ---------------------------------------------------------------------------

  /** `nb_spaces_tex`: the narrow no-break space to a thin space, the en space to
      `\enspace` and the no-break space to `~`. */
  const NbSpacesTexTable: map<char, string> :=
    map[NbCharNarrow := "\\,", NbCharEm := "\\enspace ", NbChar := "~"]

  function NbSpacesTex(s: string): (r: string)
    ensures NbChar !in s && NbCharNarrow !in s && NbCharEm !in s ==> r == s
  {
    EscapeWith(Escaper(NbSpacesTexTable, false), s)
  }

  function NbSpacesTexToken(t: string): (r: (char, nat))
    requires |t| > 0
    ensures 1 <= r.1 <= |t|
  {
    if t[0] == '\\' && |t| >= 2 && t[1] == ',' then (NbCharNarrow, 2)
    else if t[0] == '\\' && |t| >= 9 then (NbCharEm, 9)
    else if t[0] == '~' then (NbChar, 1)
    else (t[0], 1)
  }

  /** Decodes what `nb_spaces_tex` produces back into no-break spaces. */
  function NbSpacesTexDecode(t: string): string
    decreases |t|
  {
    if |t| == 0 then [] else [NbSpacesTexToken(t).0] + NbSpacesTexDecode(t[NbSpacesTexToken(t).1..])
  }

  /** A text that holds no `\` and no `~`, so that the TeX codes cannot be confused with it. */
  predicate NoTexMarkup(s: string) {
    forall k :: 0 <= k < |s| ==> s[k] != '\\' && s[k] != '~'
  }

  lemma NbSpacesTexDecodeStep(c: char, t: string)
    requires c != '\\' && c != '~'
    ensures NbSpacesTexDecode(CodeOf(Escaper(NbSpacesTexTable, false), c, ' ') + t) == [c] + NbSpacesTexDecode(t)
  {
    var code := CodeOf(Escaper(NbSpacesTexTable, false), c, ' ');
    var u := code + t;
    assert u[..|code|] == code && u[|code|..] == t;
    assert NbSpacesTexToken(u) == (c, |code|);
  }

  lemma NbSpacesTexDecodeAt(s: string, i: nat)
    requires i < |s| && s[i] != '\\' && s[i] != '~'
    ensures NbSpacesTexDecode(EscapeFrom(Escaper(NbSpacesTexTable, false), s, i))
            == [s[i]] + NbSpacesTexDecode(EscapeFrom(Escaper(NbSpacesTexTable, false), s, i + 1))
  {
    var e := Escaper(NbSpacesTexTable, false);
    EscapeFromStep(e, s, i);
    assert CodeOf(e, s[i], NextOr(s, i)) == CodeOf(e, s[i], ' ');
    NbSpacesTexDecodeStep(s[i], EscapeFrom(e, s, i + 1));
  }

  lemma {:induction false} NbSpacesTexFromRoundTrip(s: string, i: nat)
    requires i <= |s| && NoTexMarkup(s)
    ensures NbSpacesTexDecode(EscapeFrom(Escaper(NbSpacesTexTable, false), s, i)) == s[i..]
    decreases |s| - i
  {
    if i < |s| {
      var e := Escaper(NbSpacesTexTable, false);
      assert s[i] != '\\' && s[i] != '~';
      NbSpacesTexFromRoundTrip(s, i + 1);
      NbSpacesTexDecodeAt(s, i);
      ConsStep(s, i, NbSpacesTexDecode(EscapeFrom(e, s, i)), NbSpacesTexDecode(EscapeFrom(e, s, i + 1)));
    } else {
      assert s[i..] == [];
    }
  }

  /** `nb_spaces_tex` removes every no-break space; on a text without TeX markup,
      decoding the codes gives the input back. */
  lemma NbSpacesTexProperties(s: string)
    ensures NbChar !in NbSpacesTex(s) && NbCharNarrow !in NbSpacesTex(s) && NbCharEm !in NbSpacesTex(s)
    ensures NoTexMarkup(s) ==> NbSpacesTexDecode(NbSpacesTex(s)) == s
  {
    var e := Escaper(NbSpacesTexTable, false);
    EscapeScan(e, s);
    EscapeFromAvoids(e, s, 0, NbChar);
    EscapeFromAvoids(e, s, 0, NbCharNarrow);
    EscapeFromAvoids(e, s, 0, NbCharEm);
    if NoTexMarkup(s) {
      NbSpacesTexFromRoundTrip(s, 0);
      assert s[0..] == s;
    }
  }
}
