/**
 * The escapers of the first generation of the library (src/escape.rs). `html` and
 * `quotes` there are the same functions as `Escape.Html` and `Escape.Quotes`; what
 * differs is modelled here: a smaller `tex` table, `nb_spaces` turning each
 * no-break space into an HTML span, and `nb_spaces_tex` turning every kind of
 * no-break space into `~`.
 */
module LegacyEscape {
  import opened Common
  import opened Escape
  import opened SeqFacts

  // ---------------------------------------------------------------------------
  // tex
  // ---------------------------------------------------------------------------

  /** The codes of the first `tex`: no code for `!`, `<`, `>`, `[` and `]`. */
  const LegacyTexTable: map<char, string> := map[
    '&' := "\\&", '%' := "\\%", '$' := "\\$", '#' := "\\#", '_' := "\\_",
    '{' := "\\{", '}' := "\\}",
    '~' := "\\textasciitilde{}", '^' := "\\textasciicircum{}",
    '\\' := "\\textbackslash{}"]

  const LegacyTexEscaper: Escaper := Escaper(LegacyTexTable, true)

  function LegacyTex(s: string): (r: string)
    ensures (forall k :: 0 <= k < |s| ==> !IsTrigger(LegacyTexEscaper, s[k])) ==> r == s
  {
    EscapeWith(LegacyTexEscaper, s)
  }

  /** The characters the first `tex` leaves alone and the second one escapes. */
  predicate TexOnlyReserved(c: char) {
    c == '!' || c == '<' || c == '>' || c == '[' || c == ']'
  }

  lemma LegacyTexFamily()
    ensures TexFamily(LegacyTexEscaper)
    ensures forall c :: c in TexTable <==> c in LegacyTexTable || TexOnlyReserved(c)
  {
  }

  /** The first `tex` loses nothing either, changes the text exactly when the text
      holds a character of its table or `--`, and agrees with the second `tex` on
      every text without `!`, `<`, `>`, `[` or `]`. */
  lemma LegacyTexProperties(s: string)
    ensures TexDecode(LegacyTex(s)) == s
    ensures LegacyTex(s) == s <==> forall k :: 0 <= k < |s| ==> s[k] !in LegacyTexTable && !DashPairAt(s, k)
    ensures (forall k :: 0 <= k < |s| ==> !TexOnlyReserved(s[k])) ==> LegacyTex(s) == Tex(s)
  {
    LegacyTexFamily();
    TexFamilyProperties(LegacyTexEscaper, s);
    if forall k :: 0 <= k < |s| ==> !TexOnlyReserved(s[k]) {
      forall k | 0 <= k < |s|
        ensures CodeOf(LegacyTexEscaper, s[k], NextOr(s, k)) == CodeOf(TexEscaper, s[k], NextOr(s, k))
      {
        assert !TexOnlyReserved(s[k]);
      }
      EscapeAgree(LegacyTexEscaper, TexEscaper, s);
    }
  }

  // ---------------------------------------------------------------------------
  // nb_spaces
  // ---------------------------------------------------------------------------

  /** `nb_spaces`: each kind of no-break space to a span of its own class holding
      the character as a numeric entity. */
  const SpanTable: map<char, string> := map[
    NbCharNarrow := "<span class = \"nnbsp\">&#8201;</span>",
    NbCharEm := "<span class = \"ensp\">&#8194;</span>",
    NbChar := "<span class = \"nbsp\">&#160;</span>"]

  const SpanEscaper: Escaper := Escaper(SpanTable, false)

  function NbSpaces(s: string): (r: string)
    ensures NbChar !in s && NbCharNarrow !in s && NbCharEm !in s ==> r == s
  {
    EscapeWith(SpanEscaper, s)
  }

  /** Reads one span or one character back, by the first letters of the class. */
  function SpanToken(t: string): (r: (char, nat))
    requires |t| > 0
    ensures 1 <= r.1 <= |t|
  {
    if t[0] == '<' && |t| >= 35 && t[15] == 'e' then (NbCharEm, 35)
    else if t[0] == '<' && |t| >= 36 && t[16] == 'n' then (NbCharNarrow, 36)
    else if t[0] == '<' && |t| >= 34 && t[16] == 'b' then (NbChar, 34)
    else (t[0], 1)
  }

  /** Decodes the spans `nb_spaces` produces back into no-break spaces. */
  function SpanDecode(t: string): string
    decreases |t|
  {
    if |t| == 0 then [] else [SpanToken(t).0] + SpanDecode(t[SpanToken(t).1..])
  }

  lemma SpanDecodeStep(c: char, t: string)
    requires c != '<'
    ensures SpanDecode(CodeOf(SpanEscaper, c, ' ') + t) == [c] + SpanDecode(t)
  {
    var code := CodeOf(SpanEscaper, c, ' ');
    var u := code + t;
    assert u[..|code|] == code && u[|code|..] == t;
    assert SpanToken(u) == (c, |code|);
  }

  lemma SpanDecodeAt(s: string, i: nat)
    requires i < |s| && s[i] != '<'
    ensures SpanDecode(EscapeFrom(SpanEscaper, s, i)) == [s[i]] + SpanDecode(EscapeFrom(SpanEscaper, s, i + 1))
  {
    EscapeFromStep(SpanEscaper, s, i);
    assert CodeOf(SpanEscaper, s[i], NextOr(s, i)) == CodeOf(SpanEscaper, s[i], ' ');
    SpanDecodeStep(s[i], EscapeFrom(SpanEscaper, s, i + 1));
  }

  /** A text without markup: no `<` that a span could be confused with. */
  predicate NoMarkup(s: string) {
    forall k :: 0 <= k < |s| ==> s[k] != '<'
  }

  lemma {:induction false} SpanFromRoundTrip(s: string, i: nat)
    requires i <= |s| && NoMarkup(s)
    ensures SpanDecode(EscapeFrom(SpanEscaper, s, i)) == s[i..]
    decreases |s| - i
  {
    if i < |s| {
      assert s[i] != '<';
      SpanFromRoundTrip(s, i + 1);
      SpanDecodeAt(s, i);
      ConsStep(s, i, SpanDecode(EscapeFrom(SpanEscaper, s, i)), SpanDecode(EscapeFrom(SpanEscaper, s, i + 1)));
    } else {
      assert s[i..] == [];
    }
  }

  /** Every span is plain ASCII, so no code holds a no-break space. */
  lemma SpanCodesAvoid()
    ensures forall c, n :: NbChar !in CodeOf(SpanEscaper, c, n)
    ensures forall c, n :: NbCharNarrow !in CodeOf(SpanEscaper, c, n)
    ensures forall c, n :: NbCharEm !in CodeOf(SpanEscaper, c, n)
  {
    forall x | x in SpanTable
      ensures forall k :: 0 <= k < |SpanTable[x]| ==> SpanTable[x][k] as int < 128
    {
    }
  }

  lemma SpanRoundTrip(s: string)
    requires NoMarkup(s)
    ensures SpanDecode(NbSpaces(s)) == s
  {
    EscapeScan(SpanEscaper, s);
    SpanFromRoundTrip(s, 0);
    assert s[0..] == s;
  }

  /** The output of `html` holds no `<`. */
  lemma HtmlNoMarkup(s: string)
    ensures NoMarkup(Html(s))
  {
    var h := Html(s);
    EscapeScan(Escaper(HtmlTable, false), s);
    EscapeFromAvoids(Escaper(HtmlTable, false), s, 0, '<');
    forall k | 0 <= k < |h|
      ensures h[k] != '<'
    {
      assert h[k] in h;
    }
  }

  /** `nb_spaces` leaves no bare no-break space. */
  lemma NbSpacesRemovesMarks(s: string)
    ensures NbChar !in NbSpaces(s) && NbCharNarrow !in NbSpaces(s) && NbCharEm !in NbSpaces(s)
  {
    EscapeScan(SpanEscaper, s);
    SpanCodesAvoid();
    EscapeFromAvoids(SpanEscaper, s, 0, NbChar);
    EscapeFromAvoids(SpanEscaper, s, 0, NbCharNarrow);
    EscapeFromAvoids(SpanEscaper, s, 0, NbCharEm);
  }

  /** Escaping for HTML first, as the library's callers do, always leaves a text
      whose spans decode back. */
  lemma NbSpacesAfterHtml(s: string)
    ensures SpanDecode(NbSpaces(Html(s))) == Html(s)
  {
    HtmlNoMarkup(s);
    SpanRoundTrip(Html(s));
  }

  // ---------------------------------------------------------------------------
  // nb_spaces_tex
  // ---------------------------------------------------------------------------

  /** The first `nb_spaces_tex`: every kind of no-break space to `~`. */
  const LegacyNbSpacesTexEscaper: Escaper :=
    Escaper(map[NbCharNarrow := "~", NbCharEm := "~", NbChar := "~"], false)

  function LegacyNbSpacesTex(s: string): (r: string)
    ensures NbChar !in s && NbCharNarrow !in s && NbCharEm !in s ==> r == s
  {
    EscapeWith(LegacyNbSpacesTexEscaper, s)
  }

  /** The first `nb_spaces_tex` keeps the length, puts `~` exactly where a no-break
      space was and copies everything else; it agrees with the second one on every
      text whose only no-break spaces are U+00A0. */
  lemma LegacyNbSpacesTexProperties(s: string)
    ensures |LegacyNbSpacesTex(s)| == |s|
    ensures forall k :: 0 <= k < |s| ==>
              LegacyNbSpacesTex(s)[k] == (if s[k] == NbChar || s[k] == NbCharNarrow || s[k] == NbCharEm then '~' else s[k])
    ensures NbChar !in LegacyNbSpacesTex(s) && NbCharNarrow !in LegacyNbSpacesTex(s) && NbCharEm !in LegacyNbSpacesTex(s)
    ensures NbCharNarrow !in s && NbCharEm !in s ==> LegacyNbSpacesTex(s) == NbSpacesTex(s)
  {
    OneForOnePointwise(LegacyNbSpacesTexEscaper, s);
    if NbCharNarrow !in s && NbCharEm !in s {
      forall k | 0 <= k < |s|
        ensures CodeOf(LegacyNbSpacesTexEscaper, s[k], NextOr(s, k))
                == CodeOf(Escaper(NbSpacesTexTable, false), s[k], NextOr(s, k))
      {
        assert s[k] in s;
      }
      EscapeAgree(LegacyNbSpacesTexEscaper, Escaper(NbSpacesTexTable, false), s);
    }
  }
}
