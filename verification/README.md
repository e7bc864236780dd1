# crowbook-text-processing, modelled in Dafny

crowbook-text-processing is a small Rust library that prepares prose for
typesetting. It has three parts:

- **Cleaning** (`clean`). It collapses runs of spaces. It turns `...` into an
  ellipsis. It turns `--` and `---` into en and em dashes. It turns `<<` and
  `>>` into guillemets. It guesses whether each straight quote opens, closes
  or is an apostrophe, and writes the curly quote.
- **Escaping** (`escape`). It produces HTML entities, LaTeX commands, and
  markup for no-break spaces (HTML spans or LaTeX `~`).
- **French typography** (`FrenchFormatter`). It puts the right no-break space
  before `?`, `!`, `;`, `:` and `»`, after `«` and after dialogue dashes, and
  inside numbers such as `10 000 €`.

The repository holds two generations of this code:

- the current one, under `src/lib/`;
- a first one, directly under `src/`.

This project models both. The first generation reuses the current definitions
wherever its algorithm is the same. Only its differences are modelled apart:

- the `«` rule;
- the default quote threshold;
- the LaTeX table;
- no-break spaces as HTML spans;
- `nb_spaces_tex` mapping every no-break space to `~`.

Files and modules:

| file | module | models |
|---|---|---|
| `unicode.dfy` | `Unicode` | the `char` predicates Rust's standard library provides, and UTF-8 lengths |
| `common.dfy` | `Maybe`, `Common`, `SeqFacts` | `Option`; the no-break characters and `is_whitespace` of `src/common.rs`; small sequence lemmas |
| `clean.dfy` | `Clean` | `whitespaces`, `char_class`, `ellipsis`, `dashes`, `guillemets` |
| `clean_quotes.dfy` | `CleanQuotes` | `quotes` (and the first `typographic_quotes`, which is the same loop) |
| `clean_examples.dfy` | `CleanExamples` | test cases of `src/lib/clean.rs` for `ellipsis`, `dashes` and `quotes` |
| `escape.dfy` | `Escape` | `html`, `quotes`, `tex`, `nb_spaces_tex` as one table-driven escaper |
| `legacy_escape.dfy` | `LegacyEscape` | the first `tex`, `nb_spaces` and `nb_spaces_tex` |
| `french_scan.dfy` | `FrenchScan` | the look-ahead helpers of `FrenchFormatter` |
| `french_numbers.dfy` | `FrenchNumbers` | the number pass of the formatter |
| `french_punctuation.dfy` | `FrenchPunctuation` | the punctuation pass of the formatter |
| `french_spacing.dfy` | `FrenchSpacing` | the spacing half of `format_output`: early return, number pass, punctuation pass |
| `french.dfy` | `French` | the current `FrenchFormatter`: settings, setters, `format`, `format_tex` |
| `legacy_french.dfy` | `LegacyFrench` | the first `FrenchFormatter`, and where the two generations agree |
| `escape_examples.dfy` | `EscapeExamples` | test cases of `src/lib/escape.rs` and `src/escape.rs` |
| `worked_examples.dfy` | `FrenchExamples` | test cases of `src/lib/french.rs`, and a text on which the generations differ |

Every pass is a pure function on `string` (`seq<char>`). `Cow` is not modelled:
borrowed and owned results are the same text. The loops that mutate a
character vector while they read it are written as they run, one step at a
time. Each is related to a declarative description, with different strength:

- the number pass is proved equal, position by position, to `Spaced`, which
  marks exactly the positions `NumberSpaceAt` selects;
- the quotes loop is proved equal to its functional form `QuotesSpec`, and to
  obey the rule predicates of `CleanQuotes` (some of them one-directional);
- the punctuation pass is proved to keep `Good` at every step (only whitespace
  changes, and only into marks) and to obey `StepRules` and `Untouched`. It is
  not proved equal to a declarative description: see "## Left out".

## Model

| member | source | states |
|---|---|---|
| Unicode.Utf8Len | src/lib/clean.rs:149-157 | a character takes 1 to 4 bytes in UTF-8, and exactly 1 byte iff it is ASCII |
| Unicode.Utf8Length | src/lib/clean.rs:149-157 | a text's byte length is at least its character count, with equality iff the text is all ASCII |
| Unicode.Utf8LengthAppend | src/lib/clean.rs:149-157 | the byte length of a concatenation is the sum of the byte lengths |
| Unicode.Utf8PrefixMonotone | src/lib/clean.rs:149-157 | a longer character prefix has a strictly longer byte prefix, so distinct character boundaries are distinct byte offsets |
| Clean.ClassOf | src/lib/clean.rs:59-76 | the class is Alphanumeric iff the character is alphanumeric, Whitespace iff it is whitespace, Punctuation otherwise |
| Clean.FindRun | src/lib/clean.rs:30-44 | finds the first place from `i` where a space-like character follows another, or proves there is none |
| Clean.Whitespaces | src/lib/clean.rs:30-57 | the loop computes `Collapse`, and returns the text itself when it has no run of two space-likes |
| Clean.CollapseProperties | src/lib/clean.rs:30-57 | collapsing never lengthens the text, leaves no two adjacent space-likes, keeps every non-space character in order, and keeps the first character and whether the last is a space |
| Clean.CollapseFixedPoint | src/lib/clean.rs:30-57 | the text is unchanged iff it has no run of two space-likes, and collapsing twice is collapsing once |
| Clean.Ellipsis | src/lib/clean.rs:89-124 | the result is never longer than the text, and a text with no `...` and no `. . .` comes back unchanged |
| Clean.EllipsisRoundTrip | src/lib/clean.rs:89-124 | turning each ellipsis back into three dots and each no-break ellipsis back into `. . . ` gives the original text, for every text that contains neither output form |
| Clean.EllipsisNoTriggerLeft | src/lib/clean.rs:89-124 | no `...` and no `. . .` is left in the result, so a second pass changes nothing |
| Clean.Dashes | src/lib/clean.rs:270-302 | a text with no `--` comes back unchanged |
| Clean.DashesProperties | src/lib/clean.rs:270-302 | the result has no `--` left and the pass is idempotent; on a text with no en or em dash, expanding them back gives the text, and no `-` or en dash in the result is followed by a dash of any kind, so every `---` became `—` before any `--` became `–` |
| Clean.Guillemets | src/lib/clean.rs:317-347 | a text with no `<<` and no `>>` comes back unchanged |
| Clean.GuillemetsProperties | src/lib/clean.rs:317-347 | the result has no `<<` or `>>` left, the pass is idempotent, and turning guillemets back into doubled angle brackets gives the text whenever it had no guillemet |
| CleanExamples.EllipsisAtEnd | src/lib/clean.rs:436-439 | `Foo...` becomes `Foo…` |
| CleanExamples.EllipsisBeforeSpace | src/lib/clean.rs:442-445 | `Foo... Bar` becomes `Foo… Bar` |
| CleanExamples.EllipsisFourDots | src/lib/clean.rs:448-451 | of `foo....` the first three dots make `…` and the fourth stays |
| CleanExamples.EllipsisSpaced | src/lib/clean.rs:454-457 | `foo. . . ` gets no-break spaces inside the dots and keeps its last space breakable |
| CleanExamples.EllipsisSpacedThenDot | src/lib/clean.rs:460-463 | `foo. . . .` gets no-break spaces before each of the last three dots |
| CleanExamples.EllipsisTwoDots | src/lib/clean.rs:466-469 | `foo..` is left alone |
| CleanExamples.DashesSingle | src/lib/clean.rs:472-475 | a single `-` is left alone |
| CleanExamples.DashesDouble | src/lib/clean.rs:478-481 | `foo -- bar` becomes `foo – bar` |
| CleanExamples.DashesTriple | src/lib/clean.rs:484-487 | `foo --- bar` becomes `foo — bar`, not an en dash and a hyphen |
| CleanExamples.DashesBoth | src/lib/clean.rs:490-493 | `foo --- bar--` becomes `foo — bar–` |
| CleanQuotes.FindQuote | src/lib/clean.rs:145-148 | finds the first straight quote from `i`, or proves there is none |
| CleanQuotes.FindCloser | src/lib/clean.rs:211-223 | finds the first `'` from `j` that closes (not followed by alphanumeric, after non-whitespace), or proves there is none |
| CleanQuotes.SingleQuoteAt | src/lib/clean.rs:190-239 | a `'` between two alphanumerics is a closing quote (an apostrophe); where the class rises it looks ahead for a closer and rewrites it as closing, and opens when one was found and no earlier look-ahead's closer is still ahead, closing otherwise; where the class falls it closes; where the class is level it stays straight |
| CleanQuotes.Quotes | src/lib/clean.rs:143-255 | the loop's output is, position by position, the decision `QuoteAt` of a functional model of its look-ahead (`QuotesSpec`); so the length is kept and only straight quotes change; a `"` opens exactly when the class rises, and otherwise closes exactly when an opened one is unclosed and stays straight when none is; a `'` closes between alphanumerics or where the class falls, stays straight only where the class is level and not alphanumeric, and where it rises opens exactly when a closer follows and no earlier look-ahead's closer is still ahead; every opening single quote has a closer after it; a text whose quotes would all be left alone comes back unchanged, and in the output every quote would be left alone |
| CleanQuotes.QuoteStep | src/lib/clean.rs:160-249 | one iteration of the loop keeps the loop invariant and emits one character |
| CleanQuotes.CountsTrackDepth | src/lib/clean.rs:168-189 | after any prefix, the opening doubles emitted equal the closing ones plus the nesting depth the input implies there |
| CleanQuotes.QuoteFreeUnchanged | src/lib/clean.rs:143-148 | a text with no straight quote satisfies every rule of the pass with itself as result |
| CleanQuotes.RulesLeaveInert | src/lib/clean.rs:160-249 | any result obeying the rules leaves no quote that a second run would change |
| CleanQuotes.ScanStart | src/lib/clean.rs:149-157 | the loop starts one character before the first straight quote (at 0 when the quote is first), and there is no loop iff the text has no straight quote |
| CleanQuotes.ByteStepBack | src/lib/clean.rs:149-157 | the source's step-back: one byte before the byte offset of the first quote, defined iff there is a quote |
| CleanQuotes.ByteStepBackPanics | src/lib/clean.rs:149-157 | on `é'` the byte step-back lands at offset 1, which is inside the two-byte `é`, so slicing there panics |
| CleanQuotes.StepBackAgreement | src/lib/clean.rs:149-157 | the byte step-back is a character boundary exactly when the character before the quote is ASCII (or the quote is first), and then it is the byte offset of the corrected start |
| CleanExamples.QuotedChars | src/lib/clean.rs:380-383 | `some char: 'c', '4', '&'` gets `‘c’`, `‘4’` and `‘&’`: each rising quote opens |
| CleanExamples.QuotedPunctuation | src/lib/clean.rs:411-414 | `some char: '!', '?', ','` gets `‘!’`, `‘?’` and `‘,’` |
| Escape.EscapeWith | src/lib/escape.rs:131-236 | a text with no character the table maps comes back unchanged |
| Escape.EscapeUnchangedIff | src/lib/escape.rs:131-236 | for a table whose codes never shrink, escaping leaves the text unchanged iff every character is copied as is |
| Escape.EscapeAgree | src/lib/escape.rs:131-236 | two escapers that give the same code to every character of a text escape it alike |
| Escape.Html | src/lib/escape.rs:131-155 | a text without `<`, `>` or `&` comes back unchanged |
| Escape.HtmlRoundTrip | src/lib/escape.rs:131-155 | decoding the entities gives the text back, for every text |
| Escape.HtmlNoAngles | src/lib/escape.rs:131-155 | no `<` or `>` is left in the output |
| Escape.HtmlUnchangedIff | src/lib/escape.rs:131-155 | the text comes back unchanged iff it has no `<`, `>` or `&` |
| Escape.OneForOnePointwise | src/lib/escape.rs:160-174 | a table mapping each character to one character keeps the length and substitutes position by position |
| Escape.Quotes | src/lib/escape.rs:160-174 | a text without `"` comes back unchanged |
| Escape.QuotesProperties | src/lib/escape.rs:160-174 | the length is kept, each `"` becomes `'` and every other character stays, no `"` is left, and the pass is idempotent |
| Escape.Tex | src/lib/escape.rs:186-236 | a text with no LaTeX-reserved character and no `-` comes back unchanged |
| Escape.TexFamilyProperties | src/lib/escape.rs:186-236 | for every table of the LaTeX kind, decoding the commands gives the text back, and the text is unchanged iff it has no character of the table and no `--` |
| Escape.TexProperties | src/lib/escape.rs:186-236 | `tex` round-trips through the LaTeX decoding, and a text is unchanged iff it has no reserved character and no `--` |
| Escape.NbSpacesTex | src/lib/escape.rs:93-114 | a text without a no-break character comes back unchanged |
| Escape.NbSpacesTexProperties | src/lib/escape.rs:93-114 | no no-break character is left, and decoding the LaTeX spaces gives the text back when it had no `~` or `\` |
| LegacyEscape.LegacyTex | src/escape.rs:150-194 | a text with no character of the first table and no `-` comes back unchanged |
| LegacyEscape.LegacyTexProperties | src/escape.rs:150-194 | the first `tex` round-trips through the same decoding, leaves a text unchanged iff it has none of its characters and no `--`, and agrees with the current `tex` on texts without the five added characters |
| LegacyEscape.NbSpaces | src/escape.rs:27-48 | a text without a no-break character comes back unchanged |
| LegacyEscape.SpanRoundTrip | src/escape.rs:27-48 | removing the spans gives back a text without `<` |
| LegacyEscape.HtmlNoMarkup | src/escape.rs:96-119 | the first `html`'s output (the same table as the current one) contains no `<` |
| LegacyEscape.NbSpacesRemovesMarks | src/escape.rs:27-48 | no bare no-break character is left in the output |
| LegacyEscape.NbSpacesAfterHtml | src/escape.rs:27-48 | on any HTML-escaped text the spans decode back to it |
| LegacyEscape.LegacyNbSpacesTex | src/escape.rs:60-79 | a text without a no-break character comes back unchanged |
| LegacyEscape.LegacyNbSpacesTexProperties | src/escape.rs:60-79 | the length is kept, each of the three no-break characters becomes `~` and every other character stays; the current `nb_spaces_tex` agrees with it on texts with only the plain no-break space |
| FrenchScan.FindNext | src/lib/french.rs:438-445 | finds the first `c` from `n`, or proves there is none |
| FrenchScan.IsNextCharUppercase | src/lib/french.rs:448-461 | true iff some uppercase character comes after `n` with only uncased characters before it |
| FrenchScan.FindAlphabetic | src/lib/french.rs:465-484 | finds the first alphabetic character from `n`, or proves there is none |
| FrenchScan.FindWhitespace | src/lib/french.rs:465-484 | finds the first whitespace from `n`, or proves there is none |
| FrenchScan.GetNextWord | src/lib/french.rs:465-484 | the word contains no whitespace and, when it starts on a letter, is the run of non-whitespace from there |
| FrenchScan.CharIsSymbol | src/lib/french.rs:359-393 | before a letter: `°` is a unit, a capital is one iff its word is all upper-case and no longer than the currency threshold, a lower-case letter iff its word is no longer than the unit threshold, any other character is not; alone: any character that is neither a letter nor whitespace is a unit, and so is a capital |
| FrenchScan.ClosingDashFrom | src/lib/french.rs:397-425 | a hit is the whitespace before the first spaced dash ahead, with no sentence end (`!` or `?` before a capital, or `.` before a capital after a real word) before it |
| FrenchScan.FindClosingDash | src/lib/french.rs:397-425 | the dash found is the first spaced dash ahead with no sentence end before it, and one is found whenever such a dash exists |
| FrenchScan.NoClosingDashIff | src/lib/french.rs:397-425 | no closing dash is found exactly when a sentence end comes before every spaced dash ahead: `!` or `?` before a capital, or `.` before a capital after a word that is lower-case or longer than the real-word threshold |
| FrenchScan.ClosingDashComplete | src/lib/french.rs:397-425 | the scan from any position finds a closing dash whenever a spaced dash comes before any sentence end |
| FrenchNumbers.NumberFrom | src/lib/french.rs:246-273 | the loop keeps the length and changes only whitespace, into the narrow mark, at or after its start |
| FrenchNumbers.FindDigit | src/lib/french.rs:231-236 | finds the first decimal digit from `n`, or proves there is none |
| FrenchNumbers.NumberPass | src/lib/french.rs:231-273 | the number pass puts the narrow mark exactly where a whitespace sits inside a number and is followed by a digit or a unit (`Spaced`, stated independently of the loop); elsewhere the text is kept, and a text with no digit is kept whole |
| FrenchNumbers.InNumberBefore | src/lib/french.rs:246-273 | a position inside a number is preceded by a digit or a whitespace |
| FrenchNumbers.NotInNumberBeforeDigits | src/lib/french.rs:246-273 | no position before the first digit is inside a number |
| FrenchNumbers.GetNextWordFrame | src/lib/french.rs:465-484 | the next word depends only on the text from its start on, so earlier writes by the loop do not change it |
| FrenchNumbers.CharIsSymbolFrame | src/lib/french.rs:359-393 | whether a character is a unit depends only on the text from it on |
| FrenchPunctuation.SpaceStep | src/lib/french.rs:282-297 | a space before `?`, `!` or `;` becomes narrow, one before `:` no-break, a plain space before `»` no-break (any other space before `»` stays); before anything else nothing is written, and no other position changes |
| FrenchPunctuation.DashStep | src/lib/french.rs:299-316 | a dash at the start of the text (position 0 or 1) gets an em space after it; after a no-break space, the space after the dash becomes a plain space; otherwise it becomes no-break, and so does the space before the closing dash when one is found; nothing else changes |
| FrenchPunctuation.OpeningStep | src/lib/french.rs:317-343 | after `«`, the space becomes narrow when the matching `»` is near (within the quote threshold), has a space before it and `«` is not at the start; no-break otherwise; a space before that `»` gets the same mark |
| FrenchPunctuation.LegacyOpeningStep | src/french.rs:198-230 | in the first generation, `«` at the very start only marks the space after it, no-break; elsewhere the space is narrow when the matching `»` is near, has a space before it and is not the last character, no-break otherwise, and the space before `»` gets the same mark |
| FrenchPunctuation.PunctuationStep | src/lib/french.rs:279-352 | one iteration writes only marks, only over whitespace, only for one of the rules' reasons |
| FrenchPunctuation.PunctuationFrom | src/lib/french.rs:275-353 | the loop keeps the length and changes nothing before its start |
| FrenchPunctuation.FindTrouble | src/lib/french.rs:428-433 | finds the first character calling for a spacing decision, or proves there is none |
| FrenchPunctuation.StepBack | src/lib/french.rs:276-278 | the loop starts one position before the first hit, or at 0 |
| FrenchPunctuation.FromGood | src/lib/french.rs:275-353 | whatever the order of writes, the loop's vector differs from its input only at whitespace, by marks |
| FrenchPunctuation.StepRules | src/lib/french.rs:282-297 | the decision at one position before `?`, `!`, `;`, `:` or `»` |
| FrenchPunctuation.PunctuationAt | src/lib/french.rs:275-353 | what the whole loop leaves at a position before `?`, `!`, `;`, `:` or `»`, whatever earlier steps wrote |
| FrenchPunctuation.PunctuationFromSpec | src/lib/french.rs:275-353 | the loop keeps the length, changes nothing before its start, and changes only whitespace, into marks |
| FrenchPunctuation.PunctuationUntouched | src/lib/french.rs:275-353 | a position no rule reaches is left as it is |
| FrenchPunctuation.PunctuationAfterDash | src/lib/french.rs:299-316 | over the whole pass, when the character after the space calls for no decision of its own, the space after a dash at the start of the text ends as an em space; elsewhere it ends no-break or plain, and when the character before the dash is no whitespace, plain exactly when that character is the no-break mark |
| FrenchPunctuation.PunctuationAfterOpening | src/lib/french.rs:317-343 | over the whole pass, when the character after it calls for no decision of its own, the space after `«` ends no-break or narrow |
| FrenchPunctuation.PunctuationAfterFirstOpening | src/lib/french.rs:317-343 | over the whole pass, the space after the first `«` ends narrow exactly when its `»` has a space before it, is within the quote threshold and `«` is not at the start, and no-break otherwise |
| FrenchSpacing.MarksOf | src/lib/french.rs:238-241 | `format_tex` uses `~` for every mark and `format` the three Unicode no-break characters |
| FrenchSpacing.Spacing | src/lib/french.rs:229-353 | spacing keeps the length and changes only whitespace, into marks of the output; a text with nothing to punctuate and no digit comes back unchanged |
| FrenchSpacing.NumberedAt | src/lib/french.rs:246-273 | at one position, the number pass keeps the character or marks a whitespace that follows a digit or whitespace |
| FrenchSpacing.SpacingBeforePunctuation | src/lib/french.rs:282-297 | a space before `?`, `!` or `;` ends narrow, one before `:` ends no-break, and a plain space before `»` ends no-break or narrow; except a dialogue dash's en space |
| FrenchSpacing.SpacingUntouched | src/lib/french.rs:229-353 | where no punctuation rule reaches, the result is the number pass's |
| French.New | src/lib/french.rs:72-90 | the documented defaults: thresholds 3, 2, 20, 3; quotes and ellipsis on; dash and guillemet ligatures off |
| French.SetThresholdCurrency | src/lib/french.rs:97-100 | sets only the currency threshold |
| French.SetThresholdUnit | src/lib/french.rs:107-110 | sets only the unit threshold |
| French.SetThresholdQuote | src/lib/french.rs:118-121 | sets only the quote threshold |
| French.SetThresholdRealWord | src/lib/french.rs:130-133 | sets only the real-word threshold |
| French.SetTypographicQuotes | src/lib/french.rs:140-143 | sets only the quotes switch |
| French.SetTypographicEllipsis | src/lib/french.rs:150-153 | sets only the ellipsis switch |
| French.SetLigatureDashes | src/lib/french.rs:158-161 | sets only the dash switch |
| French.SetLigatureGuillemets | src/lib/french.rs:166-169 | sets only the guillemet switch |
| French.CleanTextPassesThrough | src/lib/french.rs:211-227 | a text no cleaning pass would touch passes every cleaning step unchanged, whatever the switches |
| French.FormatOutput | src/lib/french.rs:210-355 | returns the result with the cleaned text it was spaced from; the cleaned text is collapse, the enabled ligatures, the quotes pass's decisions `QuotesSpec` when enabled, then the ellipsis when enabled; the result is the spacing of the cleaned text, changes only whitespace into marks, and is the cleaned text when it is quiet; an already clean text is spaced as it stands |
| French.Format | src/lib/french.rs:188-190 | as `FormatOutput`, with the Unicode marks: the cleaned text is pinned down, and only whitespace changes, into no-break, narrow, em or plain spaces |
| French.FormatTex | src/lib/french.rs:203-205 | as `FormatOutput`, with `~` for every mark: the cleaned text is pinned down, and only whitespace changes, into `~` or a plain space |
| LegacyFrench.New | src/french.rs:37-44 | the first defaults, with quote threshold 28 |
| LegacyFrench.SetThresholdCurrency | src/french.rs:51-54 | sets only the currency threshold |
| LegacyFrench.SetThresholdUnit | src/french.rs:61-64 | sets only the unit threshold |
| LegacyFrench.SetThresholdQuote | src/french.rs:72-75 | sets only the quote threshold |
| LegacyFrench.SetThresholdRealWord | src/french.rs:84-87 | sets only the real-word threshold |
| LegacyFrench.Format | src/french.rs:104-242 | the result has the length of the collapsed text and differs from it only at whitespace, by no-break marks or a plain space; a quiet text is returned collapsed |
| LegacyFrench.GenerationsAgree | src/french.rs:198-230 | on a text without `«`, the first and current spacing passes give the same result |
| EscapeExamples.TexBraces | src/lib/escape.rs:290-295 | `\foo{bar}` escapes to `\textbackslash{}foo\{bar\}` |
| EscapeExamples.TexSquareBraces | src/lib/escape.rs:297-302 | `foo[bar]` escapes to `foo{[}bar{]}` |
| EscapeExamples.LegacyTexSquareBraces | src/escape.rs:150-194 | the first `tex` leaves `foo[bar]` as it is |
| EscapeExamples.QuotesEscape | src/lib/escape.rs:318-323 | `Some text with "quotes"` becomes `Some text with 'quotes'`; the first `quotes` is the same function and its test `quotes_escape` (src/escape.rs:268-273) is the same |
| EscapeExamples.LegacyTexBraces | src/escape.rs:247-252 | `tex_braces` of the first generation: `\foo{bar}` escapes to `\textbackslash{}foo\{bar\}` with the first table |
| EscapeExamples.SpansOfTwoMarks | src/escape.rs:27-48 | for all plain texts `a`, `b`, `c` (no character from U+00A0 up), `nb_spaces` of `a`, U+00A0, `b`, U+202F, `c` is `a`, the `nbsp` span, `b`, the `nnbsp` span, `c` |
| EscapeExamples.NbSpacesEscape | src/escape.rs:275-281 | `nb_spaces_escape`: `This`, U+00A0, `contains`, U+202F, `non breaking spaces` becomes the text with `<span class = "nbsp">&#160;</span>` and `<span class = "nnbsp">&#8201;</span>` in place of the two marks |
| FrenchExamples.TenThousand | src/lib/french.rs:559-561 | `10 000` is already clean and is spaced to `10~000` |
| FrenchExamples.TenThousandEuroSign | src/lib/french.rs:563-565 | `10 000 €` is spaced to `10~000~€` |
| FrenchExamples.TenThousandEuros | src/lib/french.rs:567-569 | `10 000 euros` is spaced to `10~000 euros`: a word too long for a currency |
| FrenchExamples.TenThousandEur | src/lib/french.rs:571-573 | `10 000 EUR` is spaced to `10~000~EUR`: a short upper-case code is a currency |
| FrenchExamples.FiftyKilometres | src/lib/french.rs:575-577 | `50 km` is spaced to `50~km` |
| FrenchExamples.ShortUnits | src/lib/french.rs:579-589 | `50 %`, `20 °C` and `20 F` get `~` before the unit: a symbol, `°` before a letter, a single capital |
| FrenchExamples.TwentyBalles | src/lib/french.rs:591-593 | `20 BALLES` is left alone: an uppercase word too long for a currency |
| FrenchExamples.UnTest | src/lib/french.rs:501-506 | `« Un test »` is spaced to `«~Un test~»` |
| FrenchExamples.UnTestOpen | src/lib/french.rs:508-513 | `« Un test` is spaced to `«~Un test` |
| FrenchExamples.UnTestClose | src/lib/french.rs:515-520 | `Un test »` is spaced to `Un test~»` |
| FrenchExamples.Court | src/lib/french.rs:522-526 | `test « court »` gets narrow no-break spaces inside the short quote |
| FrenchExamples.Long | src/lib/french.rs:529-533 | `test « beaucoup, beaucoup plus long »` gets no-break spaces inside the quote longer than the threshold |
| FrenchExamples.SiSimple | src/lib/french.rs:546-553 | the end of the second dash test, `pas si simple – si ?`, is spaced to `pas si simple –~si~?` |
| FrenchExamples.InciseSpaced | src/lib/french.rs:536-543 | an incise between two spaced dashes, shortened from the first dash test, gets marks inside both dashes |
| FrenchExamples.SentenceEndsIncise | src/lib/french.rs:546-553 | in `– mal. Mais – si` the `.` after the lower-case word before a capital ends the sentence, so the first dash finds no closing dash though a spaced one follows |
| FrenchExamples.AbbreviationKeepsIncise | src/lib/french.rs:397-425 | in `– M. Dupont – si` the `.` after a one-byte capital word is an abbreviation, so the next spaced dash closes the incise |
| FrenchExamples.OuiCurrent | src/lib/french.rs:317-343 | the current formatter spaces `Il dit « oui »` with narrow no-break spaces inside the short quote |
| FrenchExamples.OuiLegacy | src/french.rs:198-230 | the first formatter spaces the same text with plain no-break spaces: the generations disagree |
| FrenchExamples.EstCe | src/lib/french.rs:193-201 | the `format_tex` doc example: `« Est-ce bien formaté ? »` is already clean and is spaced to `«~Est-ce bien formaté~?~»` |
| FrenchExamples.FormaterExample | src/lib/french.rs:40-49 | the formatter doc example: with the ellipsis pass off, `Un texte à 'formater', n'est-ce pas ?` is cleaned to curly quotes and spaced to `Un texte à ‘formater’, n’est-ce pas~?` |

## Left out

- The Unicode predicates of Rust's standard library (`is_alphabetic`, `is_uppercase`, `is_lowercase`, `is_numeric`, `is_alphanumeric`) are exact only on U+0000..U+017F and false above. `is_whitespace` is exact: its list is finite.
- `nb_spaces_html` and `nnbsp` (src/lib/escape.rs:47-90) are not modelled. The first generation's HTML spans (`LegacyEscape.NbSpaces`) are modelled.
- `src/lib/caps.rs`, the command-line program, the benches and `src/lib.rs` are not part of this model.
- `Cow` and allocation are not modelled. A borrowed result and an owned copy are the same text here.
- Regular-expression matching is written as explicit scans (`FindRun`, `FindEllipsisTrigger`, `FindDoubleDash`, `FindAnglePair`, `FindQuote`, `FindTrigger`). Their contracts say they find the first match or prove there is none.
- Loops that rebuild a string are written as recursion over the position. Only `whitespaces` and `quotes` are kept as loops with invariants.
- FrenchPunctuation.PunctuationFrom: the pass is not pinned to a declarative description at every position. The lemmas fix the space before `?!;:` and `»` (`PunctuationAt`, `SpacingBeforePunctuation`), the space after a dash or `«` when the next character is not itself trouble (`PunctuationAfterDash`, `PunctuationAfterOpening`), and the exact choice after the first `«` (`PunctuationAfterFirstOpening`). Elsewhere they bound the result: it is a mark or the original character. Two cases are left at that bound: the space after a dash or `«` when the next character is trouble or `-`, and the choice between no-break and narrow after any `«` but the first, which is stated only as one of the two.
- FrenchScan.GetNextWord: requires `WordStartOk`. This is what the source's own slicing needs so as not to panic, and every call site in the formatter meets it.
- The first formatter's `found_opening_quote` (src/french.rs:116,199) is written but never read. It is not modelled.
- French.FormatOutput: the cleaned text is stated through `QuotesSpec`, the functional form of the quotes loop. `CleanQuotes.Quotes` proves that the loop computes exactly `QuotesSpec`.
- Clean.Ellipsis, Clean.Dashes, Clean.Guillemets: the round trips hold only for texts that do not already contain the pass's output characters. On other texts, decoding cannot tell a written ellipsis, dash or guillemet from one that was already there.
- The test `quotes_12` (src/lib/clean.rs:428-432) expects `quotes--` where its input says `quote--`, and no space is added after the second `--`. As written it cannot pass, so it is not stated.
- The tests `french`, `french_dashes_1`, `french_dashes_2` and `french_numbers` of src/french.rs (372-434) import `escape_nb_spaces_tex`, which src/escape.rs does not define: it defines `nb_spaces_tex` (line 60). They are not stated.
- The tests `html_0`, `tex_0`, `nb_spaces_0`, `tex_nb_spaces_0` and `quotes_0` (src/escape.rs:197-230 and src/lib/escape.rs:239-273) are not stated as concrete examples. Each is the no-trigger identity in the `ensures` of its escaper.
- The tests `html_1` (src/lib/escape.rs:275-280 and src/escape.rs:232-238) and `html_2` are not stated as concrete examples. `Escape.HtmlRoundTrip`, `Escape.HtmlNoAngles` and `Escape.HtmlUnchangedIff` cover `html` for every input.
- The tests `whitespaces_1` (src/lib/clean.rs:352-356) and `remove_whitespaces_1` (src/clean.rs:247-252) are not stated as concrete examples. `Clean.CollapseProperties` and `Clean.CollapseFixedPoint` cover the pass for every input.
- The first generation's tests `typographic_quotes_1` to `typographic_quotes_11` and `ellipsis_0` to `ellipsis_4` (src/clean.rs:254-354) are not stated apart. Its `typographic_quotes` and `ellipsis` are the current `quotes` and `ellipsis`, so `CleanQuotes.Quotes`, `Clean.EllipsisNoTriggerLeft` and the `CleanExamples` lemmas for `quotes_4`, `quotes_9` and `ellipsis_0` to `ellipsis_4` cover them.
- The tests `tex_dashes` and `tex_numbers` (src/lib/escape.rs:304-316 and src/escape.rs:254-267) are not stated as concrete examples. `Escape.TexProperties` and `LegacyEscape.LegacyTexProperties` cover both `tex` functions for every input.
- The French tests are stated on the spacing passes, together with `AlreadyClean` of the input. `French.FormatTex` says that an already clean text is spaced as it stands.
- The test `french` (src/lib/french.rs:488-498) is not stated. Its input is about 110 characters long and goes through every pass at once.
- The tests `french_dashes_1` and `french_dashes_2` are not stated in full. Their texts are over 80 characters long. They are stated in parts:
  - `InciseSpaced` is the incise of `french_dashes_1`, with short words;
  - `SiSimple` is the end of `french_dashes_2`;
  - `SentenceEndsIncise` is its sentence end: the `.` after "mal" before "Mais" ends the incise;
  - `AbbreviationKeepsIncise` is the opposite case, where a `.` does not end the incise.
- The tests `quotes_1` to `quotes_3`, `quotes_5` to `quotes_8`, `quotes_10` and `quotes_11` are not stated as concrete examples. `CleanQuotes.Quotes` pins every output to `QuotesSpec`, and `quotes_4` and `quotes_9` are stated on it.
- The `guillemets` tests are not stated as concrete examples. `Clean.GuillemetsProperties` covers the pass for every input.
- The escapers work on characters. `html` and `tex` scan bytes in the source. Their keys are all ASCII, and an ASCII byte never occurs inside a multi-byte UTF-8 sequence, so scanning characters gives the same text.
- The `quotes` finding below uses byte offsets (`ByteStepBack`) only to exhibit the panic. The rest of the model uses character positions.

## Findings

| source | as written | input that shows it | evidently intended | confidence | as-written member | corrected member |
|---|---|---|---|---|---|---|
| src/lib/clean.rs:149-157 (and src/clean.rs:134-142) | `quotes` steps back one **byte** from the byte offset of the first quote, then slices the string there | `é'`: the quote is at byte 2, the step-back gives byte 1, which is inside `é`, so `&input[0..1]` panics | step back one **character**, so that the previous character's class can be read | not executed | CleanQuotes.ByteStepBackPanics | CleanQuotes.ScanStart |
