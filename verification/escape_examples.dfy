/**
 * Input/output pairs from the tests of src/lib/escape.rs and src/escape.rs. Literal texts are
 * walked from a later position back to the start; the longer ones are stated
 * for a text `s` equal to the literal, stepping over each escaped character
 * and copying the runs between them.
 */
module EscapeExamples {
  import opened Escape
  import opened Common
  import opened LegacyEscape

  lemma TexBracesTail()
    ensures EscapeFrom(TexEscaper, "\\foo{bar}", 4) == "\\{bar\\}"
  {
  }

  lemma TexBracesHead()
    ensures EscapeFrom(TexEscaper, "\\foo{bar}", 0) == "\\textbackslash{}foo\\{bar\\}"
  {
    TexBracesTail();
  }

  /** `tex_braces`: the backslash becomes a command, braces are escaped. */
  lemma TexBraces()
    ensures Tex("\\foo{bar}") == "\\textbackslash{}foo\\{bar\\}"
  {
    TexBracesHead();
    EscapeScan(TexEscaper, "\\foo{bar}");
  }

  /** `tex_square_braces`: square brackets are put in braces. */
  lemma TexSquareBraces()
    ensures Tex("foo[bar]") == "foo{[}bar{]}"
  {
    assert EscapeFrom(TexEscaper, "foo[bar]", 0) == "foo{[}bar{]}";
    EscapeScan(TexEscaper, "foo[bar]");
  }

  /** `tex_braces` of src/escape.rs: the first `tex` has the same codes for the
      backslash and the braces. */
  lemma LegacyTexBraces()
    ensures LegacyTex("\\foo{bar}") == "\\textbackslash{}foo\\{bar\\}"
  {
    var s := "\\foo{bar}";
    assert forall k :: 0 <= k < |s| ==> !TexOnlyReserved(s[k]);
    LegacyTexProperties(s);
    TexBraces();
  }

  /** The first `tex` has no code for square brackets. */
  lemma LegacyTexSquareBraces(s: string)
    requires s == "foo[bar]"
    ensures LegacyTex(s) == s
  {
    assert Untriggered(LegacyTexEscaper, s, 0, |s|);
  }

  lemma QuotesWord(s: string)
    requires s == "Some text with \"quotes\""
    ensures EscapeFrom(QuotesEscaper, s, 15) == "'quotes'"
  {
    EscapeFromStep(QuotesEscaper, s, 22);
    assert Untriggered(QuotesEscaper, s, 16, 22);
    EscapeCopiesUntriggered(QuotesEscaper, s, 16, 22);
    assert s[16..22] == "quotes";
    EscapeFromStep(QuotesEscaper, s, 15);
  }

  /** `quotes_escape`: double quotes become single ones. */
  lemma QuotesEscape(s: string)
    requires s == "Some text with \"quotes\""
    ensures Quotes(s) == "Some text with 'quotes'"
  {
    QuotesWord(s);
    assert Untriggered(QuotesEscaper, s, 0, 15);
    EscapeCopiesUntriggered(QuotesEscaper, s, 0, 15);
    assert s[0..15] == "Some text with ";
    EscapeScan(QuotesEscaper, s);
  }

  /** No character below U+00A0 is a no-break space. */
  predicate Plain(w: string) {
    forall k :: 0 <= k < |w| ==> w[k] < '\U{00A0}'
  }

  lemma PlainUntriggered(s: string, i: nat, j: nat)
    requires i <= j <= |s| && Plain(s[i..j])
    ensures Untriggered(SpanEscaper, s, i, j)
  {
    forall k | i <= k < j
      ensures !IsTrigger(SpanEscaper, s[k])
    {
      assert s[k] == s[i..j][k - i];
    }
  }

  /** From a no-break space of any kind followed by plain text up to `j`: its
      span, then the text copied. */
  lemma MarkThenPlain(s: string, i: nat, j: nat)
    requires i < j <= |s| && s[i] in SpanTable && Plain(s[i + 1..j])
    ensures EscapeFrom(SpanEscaper, s, i) == SpanTable[s[i]] + s[i + 1..j] + EscapeFrom(SpanEscaper, s, j)
  {
    PlainUntriggered(s, i + 1, j);
    EscapeCopiesUntriggered(SpanEscaper, s, i + 1, j);
    EscapeFromStep(SpanEscaper, s, i);
  }

  /** `nb_spaces` on plain text, a no-break space, plain text, a narrow no-break
      space and plain text: each mark becomes its span, the rest is copied. */
  lemma SpansOfTwoMarks(a: string, b: string, c: string)
    requires Plain(a) && Plain(b) && Plain(c)
    ensures NbSpaces(a + [NbChar] + b + [NbCharNarrow] + c)
            == a + SpanTable[NbChar] + b + SpanTable[NbCharNarrow] + c
  {
    var s := a + [NbChar] + b + [NbCharNarrow] + c;
    var i, j := |a|, |a| + 1 + |b|;
    assert s[0..i] == a && s[i] == NbChar && s[i + 1..j] == b;
    assert s[j] == NbCharNarrow && s[j + 1..|s|] == c;
    var tail := EscapeFrom(SpanEscaper, s, |s|);
    assert tail == [];
    MarkThenPlain(s, j, |s|);
    var t2 := EscapeFrom(SpanEscaper, s, j);
    assert t2 == SpanTable[NbCharNarrow] + c;
    MarkThenPlain(s, i, j);
    var t1 := EscapeFrom(SpanEscaper, s, i);
    assert t1 == SpanTable[NbChar] + b + t2;
    PlainUntriggered(s, 0, i);
    EscapeCopiesUntriggered(SpanEscaper, s, 0, i);
    assert EscapeFrom(SpanEscaper, s, 0) == a + t1;
    EscapeScan(SpanEscaper, s);
    assert NbSpaces(s) == a + t1;
    SeqAssoc5(a, SpanTable[NbChar], b, SpanTable[NbCharNarrow], c);
  }

  lemma SeqAssoc5(a: string, b: string, c: string, d: string, e: string)
    ensures a + (b + c + (d + e)) == a + b + c + d + e
  {
  }

  lemma NbSpacesInput(s: string)
    requires s == "This\U{00A0}contains\U{202F}non breaking spaces"
    ensures s == "This" + [NbChar] + "contains" + [NbCharNarrow] + "non breaking spaces"
  {
  }

  lemma NbSpacesWords()
    ensures Plain("This") && Plain("contains") && Plain("non breaking spaces")
  {
  }

  lemma SpanCodes()
    ensures SpanTable[NbChar] == "<span class = \"nbsp\">&#160;</span>"
    ensures SpanTable[NbCharNarrow] == "<span class = \"nnbsp\">&#8201;</span>"
  {
  }

  /** `nb_spaces_escape` of src/escape.rs: a no-break space and a narrow one
      become spans of classes `nbsp` and `nnbsp`. */
  lemma NbSpacesEscape(s: string)
    requires s == "This\U{00A0}contains\U{202F}non breaking spaces"
    ensures NbSpaces(s) == "This" + "<span class = \"nbsp\">&#160;</span>"
                           + "contains" + "<span class = \"nnbsp\">&#8201;</span>"
                           + "non breaking spaces"
  {
    NbSpacesInput(s);
    NbSpacesWords();
    SpansOfTwoMarks("This", "contains", "non breaking spaces");
    SpanCodes();
  }
}
