/**
 * `FrenchFormatter` of src/lib/french.rs: its settings, their setters, and
 * `format` / `format_tex`, which clean the text with the passes the settings
 * enable and then run the spacing passes.
 */
module French {
  import opened Unicode
  import opened Common
  import opened Clean
  import opened CleanQuotes
  import opened FrenchScan
  import opened FrenchNumbers
  import opened FrenchPunctuation
  import opened FrenchSpacing

  /** The settings: four guessing thresholds and four switches. */
  datatype Formatter = Formatter(
    thresholds: Thresholds,
    typographicQuotes: bool,
    typographicEllipsis: bool,
    ligatureDashes: bool,
    ligatureGuillemets: bool)

  /** `FrenchFormatter::new()`, the documented defaults. */
  function New(): (f: Formatter)
    ensures f.thresholds == Thresholds(3, 2, 20, 3)
    ensures f.typographicQuotes && f.typographicEllipsis
    ensures !f.ligatureDashes && !f.ligatureGuillemets
  {
    Formatter(Thresholds(3, 2, 20, 3), true, true, false, false)
  }

  /** Only the switches are the same. */
  predicate SameSwitches(f: Formatter, g: Formatter) {
    && f.typographicQuotes == g.typographicQuotes
    && f.typographicEllipsis == g.typographicEllipsis
    && f.ligatureDashes == g.ligatureDashes
    && f.ligatureGuillemets == g.ligatureGuillemets
  }

  function SetThresholdCurrency(f: Formatter, n: nat): (g: Formatter)
    ensures g.thresholds.currency == n && SameSwitches(f, g)
    ensures g.thresholds.unit == f.thresholds.unit && g.thresholds.quote == f.thresholds.quote
    ensures g.thresholds.realWord == f.thresholds.realWord
  {
    f.(thresholds := f.thresholds.(currency := n))
  }

  function SetThresholdUnit(f: Formatter, n: nat): (g: Formatter)
    ensures g.thresholds.unit == n && SameSwitches(f, g)
    ensures g.thresholds.currency == f.thresholds.currency && g.thresholds.quote == f.thresholds.quote
    ensures g.thresholds.realWord == f.thresholds.realWord
  {
    f.(thresholds := f.thresholds.(unit := n))
  }

  function SetThresholdQuote(f: Formatter, n: nat): (g: Formatter)
    ensures g.thresholds.quote == n && SameSwitches(f, g)
    ensures g.thresholds.currency == f.thresholds.currency && g.thresholds.unit == f.thresholds.unit
    ensures g.thresholds.realWord == f.thresholds.realWord
  {
    f.(thresholds := f.thresholds.(quote := n))
  }

  function SetThresholdRealWord(f: Formatter, n: nat): (g: Formatter)
    ensures g.thresholds.realWord == n && SameSwitches(f, g)
    ensures g.thresholds.currency == f.thresholds.currency && g.thresholds.unit == f.thresholds.unit
    ensures g.thresholds.quote == f.thresholds.quote
  {
    f.(thresholds := f.thresholds.(realWord := n))
  }

  function SetTypographicQuotes(f: Formatter, b: bool): (g: Formatter)
    ensures g.typographicQuotes == b && g.thresholds == f.thresholds
    ensures g.typographicEllipsis == f.typographicEllipsis
    ensures g.ligatureDashes == f.ligatureDashes && g.ligatureGuillemets == f.ligatureGuillemets
  {
    f.(typographicQuotes := b)
  }

  function SetTypographicEllipsis(f: Formatter, b: bool): (g: Formatter)
    ensures g.typographicEllipsis == b && g.thresholds == f.thresholds
    ensures g.typographicQuotes == f.typographicQuotes
    ensures g.ligatureDashes == f.ligatureDashes && g.ligatureGuillemets == f.ligatureGuillemets
  {
    f.(typographicEllipsis := b)
  }

  function SetLigatureDashes(f: Formatter, b: bool): (g: Formatter)
    ensures g.ligatureDashes == b && g.thresholds == f.thresholds
    ensures g.typographicQuotes == f.typographicQuotes && g.typographicEllipsis == f.typographicEllipsis
    ensures g.ligatureGuillemets == f.ligatureGuillemets
  {
    f.(ligatureDashes := b)
  }

  function SetLigatureGuillemets(f: Formatter, b: bool): (g: Formatter)
    ensures g.ligatureGuillemets == b && g.thresholds == f.thresholds
    ensures g.typographicQuotes == f.typographicQuotes && g.typographicEllipsis == f.typographicEllipsis
    ensures g.ligatureDashes == f.ligatureDashes
  {
    f.(ligatureGuillemets := b)
  }

  /** The cleaning that comes before the quotes: whitespace runs collapsed, then
      dashes and guillemets when enabled. */
  function Ligatures(f: Formatter, s: string): string {
    var a := Collapse(s);
    var b := if f.ligatureDashes then Dashes(a) else a;
    if f.ligatureGuillemets then Guillemets(b) else b
  }

  /** The ellipsis pass when enabled. */
  function EllipsisIf(f: Formatter, s: string): string {
    if f.typographicEllipsis then Ellipsis(s) else s
  }

  /** The whole cleaning before the spacing passes: the ligatures, the quotes pass
      when enabled (its decisions `QuotesSpec`), then the ellipsis pass when enabled. */
  function Cleaning(f: Formatter, s: string): string {
    var a := Ligatures(f, s);
    EllipsisIf(f, if f.typographicQuotes then QuotesSpec(a) else a)
  }

  /** A text none of the cleaning passes would touch: no whitespace run, no ellipsis,
      no double dash, no doubled angle bracket, no straight quote. */
  ghost predicate AlreadyClean(s: string) {
    && (forall k: nat :: !RunAt(s, k))
    && (forall k: nat :: !EllipsisTriggerAt(s, k))
    && (forall k: nat :: !DoubleDashAt(s, k))
    && (forall k: nat :: !AnglePairAt(s, k))
    && (forall k :: 0 <= k < |s| ==> !IsStraightQuote(s[k]))
  }

  /** Every cleaning pass, whatever the switches, returns an already clean text as it
      is. */
  lemma CleanTextPassesThrough(f: Formatter, s: string)
    requires AlreadyClean(s)
    ensures Ligatures(f, s) == s && AllInert(s) && EllipsisIf(f, s) == s
  {
    CollapseUnchangedWithoutRun(s);
    QuoteFreeUnchanged(s);
  }

  /** `format_output`: clean, then space with the marks of `o`. `cleaned` is the text
      the spacing passes start from, returned alongside the result. Without the quotes pass, or when the quotes pass
      has nothing to change, the cleaning is a plain composition of the other passes. */
  method FormatOutput(f: Formatter, s: string, o: Output) returns (r: string, cleaned: string)
    ensures r == Spacing(f.thresholds, o, false, cleaned)
    ensures cleaned == Cleaning(f, s)
    ensures !f.typographicQuotes || AllInert(Ligatures(f, s)) ==>
              cleaned == EllipsisIf(f, Ligatures(f, s))
    ensures |r| == |cleaned|
    ensures forall k :: 0 <= k < |cleaned| && r[k] != cleaned[k] ==>
              IsWhitespace(cleaned[k]) && IsMark(MarksOf(o), r[k])
    ensures Quiet(cleaned) ==> r == cleaned
    ensures AlreadyClean(s) ==> cleaned == s && r == Spacing(f.thresholds, o, false, s)
  {
    var input := Whitespaces(s);
    if f.ligatureDashes {
      input := Dashes(input);
    }
    if f.ligatureGuillemets {
      input := Guillemets(input);
    }
    if f.typographicQuotes {
      input := Quotes(input);
    }
    if f.typographicEllipsis {
      input := Ellipsis(input);
    }
    cleaned := input;
    r := Spacing(f.thresholds, o, false, input);
    if AlreadyClean(s) {
      CleanTextPassesThrough(f, s);
    }
  }

  /** `format`: Unicode no-break spaces. */
  method Format(f: Formatter, s: string) returns (r: string, ghost cleaned: string)
    ensures r == Spacing(f.thresholds, Default, false, cleaned)
    ensures cleaned == Cleaning(f, s)
    ensures !f.typographicQuotes || AllInert(Ligatures(f, s)) ==>
              cleaned == EllipsisIf(f, Ligatures(f, s))
    ensures forall k :: 0 <= k < |cleaned| && r[k] != cleaned[k] ==>
              IsWhitespace(cleaned[k]) && (r[k] == NbChar || r[k] == NbCharNarrow || r[k] == NbCharEm || r[k] == ' ')
    ensures AlreadyClean(s) ==> r == Spacing(f.thresholds, Default, false, s)
  {
    r, cleaned := FormatOutput(f, s, Default);
  }

  /** `format_tex`: every mark is `~`. */
  method FormatTex(f: Formatter, s: string) returns (r: string, ghost cleaned: string)
    ensures r == Spacing(f.thresholds, Latex, false, cleaned)
    ensures cleaned == Cleaning(f, s)
    ensures !f.typographicQuotes || AllInert(Ligatures(f, s)) ==>
              cleaned == EllipsisIf(f, Ligatures(f, s))
    ensures forall k :: 0 <= k < |cleaned| && r[k] != cleaned[k] ==>
              IsWhitespace(cleaned[k]) && (r[k] == '~' || r[k] == ' ')
    ensures AlreadyClean(s) ==> r == Spacing(f.thresholds, Latex, false, s)
  {
    r, cleaned := FormatOutput(f, s, Latex);
  }
}
