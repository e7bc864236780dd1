/**
 * The typographic quote pass `quotes` (src/lib/clean.rs), identical to
 * `typographic_quotes` of the older src/clean.rs.
 *
 * Double quotes open when the class of the character before is below the
 * class of the character after (the text boundary counts as whitespace),
 * and otherwise close an open double quote if there is one. A single quote
 * between two alphanumerics is an apostrophe; one where the class rises
 * looks ahead for its closing quote, rewrites it in the working buffer, and
 * becomes an opening quote only when the closer found by an earlier
 * look-ahead is already behind it.
 */
module CleanQuotes {
  import opened Unicode
  import opened Maybe
  import opened Clean

  const LeftDouble: char := '\U{201C}'
  const RightDouble: char := '\U{201D}'
  const LeftSingle: char := '\U{2018}'
  const RightSingle: char := '\U{2019}'

  predicate IsStraightQuote(c: char) {
    c == '"' || c == '\''
  }

  /** Class of the character before `i`; the start of the text counts as whitespace. */
  function PrevClass(t: string, i: nat): CharClass
    requires i < |t|
  {
    if i > 0 then ClassOf(t[i - 1]) else Whitespace
  }

  /** Class of the character after `i`; the end of the text counts as whitespace. */
  function NextClass(t: string, i: nat): CharClass
    requires i < |t|
  {
    if i + 1 < |t| then ClassOf(t[i + 1]) else Whitespace
  }

  /** A quote at `i` starts something: the class rises across it. */
  predicate Rising(t: string, i: nat)
    requires i < |t|
  {
    Below(PrevClass(t, i), NextClass(t, i))
  }

  /** A quote at `i` ends something: the class falls across it. */
  predicate Falling(t: string, i: nat)
    requires i < |t|
  {
    Below(NextClass(t, i), PrevClass(t, i))
  }

  /** A straight single quote that the look-ahead accepts as a closing quote: not
      after whitespace, and at the end of the text or not before an alphanumeric. */
  predicate CloserAt(t: string, j: nat) {
    0 < j < |t| && t[j] == '\'' && !IsWhitespace(t[j - 1])
    && (j + 1 >= |t| || ClassOf(t[j + 1]) != Alphanumeric)
  }

  /** The look-ahead of an opening single quote: the first closer at or after `j`. */
  function FindCloser(t: string, j: nat): (r: Option<nat>)
    requires j <= |t|
    ensures r.Some? ==> j <= r.value < |t| && CloserAt(t, r.value)
                        && forall k :: j <= k < r.value ==> !CloserAt(t, k)
    ensures r.None? ==> forall k :: j <= k < |t| ==> !CloserAt(t, k)
    decreases |t| - j
  {
    if j >= |t| then None
    else if CloserAt(t, j) then Some(j)
    else FindCloser(t, j + 1)
  }

  /** The first straight quote at or after `i`: the prefilter `["']`. */
  function FindQuote(s: string, i: nat): (r: Option<nat>)
    requires i <= |s|
    ensures r.Some? ==> i <= r.value < |s| && IsStraightQuote(s[r.value])
                        && forall k :: i <= k < r.value ==> !IsStraightQuote(s[k])
    ensures r.None? ==> forall k :: i <= k < |s| ==> !IsStraightQuote(s[k])
    decreases |s| - i
  {
    if i >= |s| then None
    else if IsStraightQuote(s[i]) then Some(i)
    else FindQuote(s, i + 1)
  }

  // ---------------------------------------------------------------------------
  // Where the scan starts
  // ---------------------------------------------------------------------------

  /** Character index where the scan starts: one character before the first
      straight quote, so that the class of that character can be read. */
  function ScanStart(s: string): (r: Option<nat>)
    ensures r.None? <==> forall k :: 0 <= k < |s| ==> !IsStraightQuote(s[k])
    ensures r.Some? ==> var q := FindQuote(s, 0).value;
                        && r.value <= q < |s| && IsStraightQuote(s[q])
                        && (q > 0 ==> r.value + 1 == q)
  {
    match FindQuote(s, 0)
    case None => None
    case Some(q) => Some(if q > 0 then q - 1 else 0)
  }

  /** Byte offset where the source slices the input: one BYTE before the first
      straight quote. */
  function ByteStepBack(s: string): (r: Option<nat>)
    ensures r.Some? <==> FindQuote(s, 0).Some?
  {
    match FindQuote(s, 0)
    case None => None
    case Some(q) =>
      var b := Utf8Length(s[..q]);
      Some(if b > 0 then b - 1 else 0)
  }

  /** A byte offset that falls between two characters, where a `str` may be sliced. */
  ghost predicate IsCharBoundary(s: string, b: nat) {
    exists m :: 0 <= m <= |s| && Utf8Length(s[..m]) == b
  }

  /** Counterexample: in `é'` the first quote is at byte 2, the source slices at
      byte 1, which is inside the two-byte `é`, and the slice panics. */
  lemma ByteStepBackPanics()
    ensures ByteStepBack("\U{00E9}'") == Some(1)
    ensures !IsCharBoundary("\U{00E9}'", 1)
  {
    var s := "\U{00E9}'";
    assert FindQuote(s, 0) == Some(1);
    assert s[..1] == ['\U{00E9}'];
    assert Utf8Length(s[..1]) == 2;
    forall m | 0 <= m <= |s|
      ensures Utf8Length(s[..m]) != 1
    {
      if m == 2 {
        assert s[..m] == s;
        Utf8LengthAppend(['\U{00E9}'], ['\'']);
        assert s == ['\U{00E9}'] + ['\''];
      }
    }
  }

  /** The source's byte step-back lands between characters exactly when the first
      quote starts the text or follows an ASCII character; the character step-back
      of `ScanStart` always does, and is the same position whenever the byte one is. */
  lemma StepBackAgreement(s: string)
    requires FindQuote(s, 0).Some?
    ensures var q := FindQuote(s, 0).value;
            IsCharBoundary(s, ByteStepBack(s).value) <==> q == 0 || IsAscii(s[q - 1])
    ensures IsCharBoundary(s, ByteStepBack(s).value) ==>
              Utf8Length(s[..ScanStart(s).value]) == ByteStepBack(s).value
  {
    var q := FindQuote(s, 0).value;
    var b := ByteStepBack(s).value;
    if q == 0 {
      assert s[..0] == [];
      assert Utf8Length(s[..0]) == 0;
    } else {
      Utf8PrefixStep(s, q - 1);
      if IsAscii(s[q - 1]) {
        assert Utf8Length(s[..q - 1]) == b;
      } else {
        forall m | 0 <= m <= |s|
          ensures Utf8Length(s[..m]) != b
        {
          if m < q - 1 {
            Utf8PrefixMonotone(s, m, q - 1);
          } else if m > q {
            Utf8PrefixMonotone(s, q, m);
          }
        }
      }
    }
  }

  // ---------------------------------------------------------------------------
  // What the pass promises
  // ---------------------------------------------------------------------------

  /** Two texts whose characters have the same classes position by position. */
  predicate SameClasses(s: string, t: string) {
    |s| == |t| && forall k :: 0 <= k < |s| ==> ClassOf(s[k]) == ClassOf(t[k])
  }

  /** The working buffer: the input with some straight single quotes already
      rewritten to closing quotes by a look-ahead. */
  predicate Rewritten(s: string, buf: string) {
    |s| == |buf| && forall k :: 0 <= k < |s| ==> buf[k] == s[k] || (s[k] == '\'' && buf[k] == RightSingle)
  }

  /** Straight and typographic quotes are all punctuation. */
  lemma QuoteClasses()
    ensures ClassOf('"') == Punctuation && ClassOf('\'') == Punctuation
    ensures ClassOf(LeftDouble) == Punctuation && ClassOf(RightDouble) == Punctuation
    ensures ClassOf(LeftSingle) == Punctuation && ClassOf(RightSingle) == Punctuation
  {
  }

  /** Texts with the same classes agree on every class-based decision. */
  lemma SameClassesDecisions(s: string, t: string, i: nat)
    requires SameClasses(s, t) && i < |s|
    ensures PrevClass(s, i) == PrevClass(t, i) && NextClass(s, i) == NextClass(t, i)
    ensures Rising(s, i) == Rising(t, i) && Falling(s, i) == Falling(t, i)
  {
    if i > 0 {
      assert ClassOf(s[i - 1]) == ClassOf(t[i - 1]);
    }
  }

  /** Rewriting quotes in the buffer changes no class, and a buffer position is a
      closer exactly when it is one in the input and has not been rewritten. */
  lemma RewrittenSameClasses(s: string, buf: string)
    requires Rewritten(s, buf)
    ensures SameClasses(s, buf)
    ensures forall k :: 0 <= k < |s| ==> (CloserAt(buf, k) <==> CloserAt(s, k) && buf[k] == '\'')
  {
    QuoteClasses();
    forall k | 0 <= k < |s|
      ensures CloserAt(buf, k) <==> CloserAt(s, k) && buf[k] == '\''
    {
      if 0 < k {
        assert ClassOf(s[k - 1]) == ClassOf(buf[k - 1]);
      }
      if k + 1 < |s| {
        assert ClassOf(s[k + 1]) == ClassOf(buf[k + 1]);
      }
    }
  }

  /** How many of the first `n` positions hold a straight double quote in `s` and `c` in `r`. */
  function DoubleCount(s: string, r: string, n: nat, c: char): nat
    requires n <= |s| && n <= |r|
    decreases n
  {
    if n == 0 then 0
    else DoubleCount(s, r, n - 1, c) + (if s[n - 1] == '"' && r[n - 1] == c then 1 else 0)
  }

  /** Closing double quotes never outnumber opening ones in any prefix. */
  predicate DoublesBalanced(s: string, r: string)
    requires |r| <= |s|
  {
    forall n :: 0 <= n <= |r| ==> DoubleCount(s, r, n, RightDouble) <= DoubleCount(s, r, n, LeftDouble)
  }

  /** What became of a straight double quote of the input at `k`: it opens exactly
      when the class rises across it; otherwise it closes exactly when an earlier
      opening double quote is still unclosed, and stays straight when none is. */
  predicate DoubleQuoteRule(s: string, r: string, k: nat)
    requires k < |r| <= |s|
  {
    s[k] == '"' ==>
      && (r[k] == LeftDouble || r[k] == RightDouble || r[k] == '"')
      && (r[k] == LeftDouble <==> Rising(s, k))
      && (r[k] == RightDouble <==> !Rising(s, k) && DoubleCount(s, r, k, RightDouble) < DoubleCount(s, r, k, LeftDouble))
      && (r[k] == '"' <==> !Rising(s, k) && DoubleCount(s, r, k, RightDouble) == DoubleCount(s, r, k, LeftDouble))
  }

  /** What became of a straight single quote of the input at `k`: one of the three
      single quotes; a closing quote between alphanumerics or where the class falls;
      straight only when the class is level on both sides and not alphanumeric, and
      always straight between whitespace; opening only where the class rises. */
  predicate SingleQuoteRule(s: string, r: string, k: nat)
    requires k < |r| <= |s|
  {
    s[k] == '\'' ==>
      && (r[k] == LeftSingle || r[k] == RightSingle || r[k] == '\'')
      && (PrevClass(s, k) == Alphanumeric && NextClass(s, k) == Alphanumeric ==> r[k] == RightSingle)
      && (Falling(s, k) ==> r[k] == RightSingle)
      && (r[k] == '\'' ==> PrevClass(s, k) == NextClass(s, k) && PrevClass(s, k) != Alphanumeric)
      && (PrevClass(s, k) == Whitespace && NextClass(s, k) == Whitespace ==> r[k] == '\'')
      && (r[k] == LeftSingle ==> Rising(s, k))
  }

  /** A straight single quote of the input emitted as an opening quote. */
  predicate OpenerAt(s: string, r: string, k: nat)
    requires k < |r| <= |s|
  {
    s[k] == '\'' && r[k] == LeftSingle
  }

  /** Every opening single quote has a closing quote after it. */
  predicate OpenersClosed(s: string, r: string)
    requires |r| == |s|
  {
    forall k :: 0 <= k < |s| && OpenerAt(s, r, k) ==>
      exists j :: k < j < |s| && CloserAt(s, j) && r[j] == RightSingle
  }

  /** Between two opening single quotes there is a closing one. */
  predicate OpenersSeparated(s: string, r: string)
    requires |r| == |s|
  {
    forall k, k' :: 0 <= k < k' < |s| && OpenerAt(s, r, k) && OpenerAt(s, r, k') ==>
      exists j :: k < j < k' && CloserAt(s, j) && r[j] == RightSingle
  }

  /** No single quote before `i` rises. */
  predicate NoRisingSingleBefore(s: string, i: nat)
    requires i <= |s|
  {
    forall k :: 0 <= k < i && s[k] == '\'' ==> !Rising(s, k)
  }

  /** The first rising single quote opens whenever a closer follows it. */
  predicate FirstRisingOpens(s: string, r: string)
    requires |r| <= |s|
  {
    forall k :: 0 <= k < |r| && s[k] == '\'' && Rising(s, k) && NoRisingSingleBefore(s, k) && FindCloser(s, k + 1).Some?
      ==> r[k] == LeftSingle
  }

  /** A straight quote that the pass leaves alone. */
  predicate Inert(t: string, k: nat)
    requires k < |t|
  {
    && (t[k] == '"' ==> !Rising(t, k))
    && (t[k] == '\'' ==> PrevClass(t, k) == NextClass(t, k) && PrevClass(t, k) != Alphanumeric)
  }

  predicate AllInert(t: string) {
    forall k :: 0 <= k < |t| ==> Inert(t, k)
  }

  // ---------------------------------------------------------------------------
  // The scan
  // ---------------------------------------------------------------------------

  /** Unclosed double quotes before position `n`: the counter of the scan, as a
      function of the input alone. */
  function DepthBefore(s: string, n: nat): nat
    requires n <= |s|
    decreases n
  {
    if n == 0 then 0
    else
      var d := DepthBefore(s, n - 1);
      if s[n - 1] != '"' then d
      else if Rising(s, n - 1) then d + 1
      else if d > 0 then d - 1
      else 0
  }

  /** The double-quote decision in terms of the counter. */
  predicate DoubleDepthRule(s: string, r: string, k: nat)
    requires k < |r| <= |s|
  {
    s[k] == '"' ==>
      r[k] == (if Rising(s, k) then LeftDouble else if DepthBefore(s, k) > 0 then RightDouble else '"')
  }

  predicate Copied(s: string, r: string)
    requires |r| <= |s|
  {
    forall k :: 0 <= k < |r| && !IsStraightQuote(s[k]) ==> r[k] == s[k]
  }

  /** The look-ahead state of the scan: the working buffer and the last closer a
      look-ahead claimed. */
  datatype Look = Look(buf: string, closing: Option<nat>)

  /** A straight single quote at `i` of the buffer looks ahead: the class rises
      across it and it is not between two alphanumerics. */
  predicate LooksAhead(s: string, buf: string, i: nat)
    requires i < |s| && |buf| == |s|
  {
    buf[i] == '\'' && !(PrevClass(s, i) == Alphanumeric && NextClass(s, i) == Alphanumeric) && Rising(s, i)
  }

  /** The look-ahead state after position `i`: a quote that looks ahead and finds a
      closer rewrites it and records it. */
  function LookStep(s: string, st: Look, i: nat): Look
    requires i < |s| && |st.buf| == |s|
  {
    if LooksAhead(s, st.buf, i) then
      match FindCloser(st.buf, i + 1)
      case Some(j) => Look(st.buf[j := RightSingle], Some(j))
      case None => st
    else st
  }

  /** The look-ahead state before position `n`, as a function of the input alone. */
  function LookState(s: string, n: nat): (r: Look)
    requires n <= |s|
    ensures |r.buf| == |s|
    decreases n
  {
    if n == 0 then Look(s, None) else LookStep(s, LookState(s, n - 1), n - 1)
  }

  /** What the scan emits at `k`, decided from the input and the look-ahead state:
      a rewritten closer is a closing quote; a double quote opens where the class
      rises and otherwise closes an unclosed one; a single quote between
      alphanumerics is an apostrophe, one where the class rises opens exactly when
      its look-ahead finds a closer and no earlier look-ahead's closer is still
      ahead, one where the class falls closes, and a level one stays straight. */
  function QuoteAt(s: string, k: nat): char
    requires k < |s|
  {
    var st := LookState(s, k);
    var c := st.buf[k];
    if c == '"' then
      if Rising(s, k) then LeftDouble else if DepthBefore(s, k) > 0 then RightDouble else '"'
    else if c != '\'' then c
    else if PrevClass(s, k) == Alphanumeric && NextClass(s, k) == Alphanumeric then RightSingle
    else if Rising(s, k) then
      if FindCloser(st.buf, k + 1).Some? && !(st.closing.Some? && k <= st.closing.value) then LeftSingle
      else RightSingle
    else if Falling(s, k) then RightSingle
    else '\''
  }

  /** The text the scan emits, position by position. */
  function QuotesSpec(s: string): (r: string)
    ensures |r| == |s| && forall k :: 0 <= k < |s| ==> r[k] == QuoteAt(s, k)
  {
    seq(|s|, k requires 0 <= k < |s| => QuoteAt(s, k))
  }

  /** The emitted prefix obeys the rules, and `depth` is the counter. */
  ghost predicate EmittedInv(s: string, r: string, depth: nat)
    requires |r| <= |s|
  {
    && Copied(s, r)
    && (forall k :: 0 <= k < |r| ==> DoubleDepthRule(s, r, k))
    && (forall k :: 0 <= k < |r| ==> SingleQuoteRule(s, r, k))
    && FirstRisingOpens(s, r)
    && depth == DepthBefore(s, |r|)
    && (AllInert(s) ==> r == s[..|r|])
  }

  /** Rewritten positions are closers; those already passed were emitted as closing quotes. */
  ghost predicate BufferInv(s: string, r: string, buf: string, closing: Option<nat>)
    requires |r| <= |s| && Rewritten(s, buf)
  {
    && (forall k :: 0 <= k < |r| && buf[k] != s[k] ==> r[k] == RightSingle)
    && (forall k :: |r| <= k < |s| && buf[k] != s[k] ==> CloserAt(s, k))
    && (closing.Some? ==> CloserAt(s, closing.value) && buf[closing.value] == RightSingle)
    && (NoRisingSingleBefore(s, |r|) ==> buf == s && closing.None?)
  }

  /** Bookkeeping of opening single quotes: the closer each one's look-ahead
      rewrote (`mate`), the closer separating it from the previous opening one
      (`separator`), and the last one emitted. */
  ghost predicate OpenerInv(s: string, r: string, buf: string, closing: Option<nat>,
                            mate: map<nat, nat>, separator: map<nat, nat>, lastOpener: Option<nat>)
    requires |r| <= |s| && Rewritten(s, buf)
  {
    && (forall k :: k in mate ==> k < mate[k] && CloserAt(s, mate[k]) && buf[mate[k]] == RightSingle)
    && (forall k :: 0 <= k < |r| && OpenerAt(s, r, k) ==> k in mate && lastOpener.Some? && k <= lastOpener.value)
    && (forall k' :: k' in separator ==>
          separator[k'] < k' && CloserAt(s, separator[k']) && buf[separator[k']] == RightSingle)
    && (forall k, k' :: 0 <= k < k' < |r| && OpenerAt(s, r, k) && OpenerAt(s, r, k') ==>
          k' in separator && k < separator[k'])
    && (lastOpener.Some? ==> lastOpener.value < |r| && closing.Some? && lastOpener.value < closing.value)
  }

  /** The state of the scan after emitting `r` for the first `|r|` characters. */
  ghost predicate Inv(s: string, r: string, buf: string, closing: Option<nat>, depth: nat,
                      mate: map<nat, nat>, separator: map<nat, nat>, lastOpener: Option<nat>)
  {
    && |r| <= |s| && Rewritten(s, buf)
    && EmittedInv(s, r, depth)
    && BufferInv(s, r, buf, closing)
    && OpenerInv(s, r, buf, closing, mate, separator, lastOpener)
  }

  /** The four cases of `SingleQuoteAt`, as one fact for the proof. */
  predicate SingleDecision(buf: string, i: nat, closing: Option<nat>,
                           out: char, found: Option<nat>, buf': string, closing': Option<nat>)
    requires i < |buf|
  {
    && (PrevClass(buf, i) == Alphanumeric && NextClass(buf, i) == Alphanumeric ==>
         out == RightSingle && buf' == buf && closing' == closing)
    && (!(PrevClass(buf, i) == Alphanumeric && NextClass(buf, i) == Alphanumeric) && Rising(buf, i) ==>
         && found == FindCloser(buf, i + 1)
         && (found.Some? ==> closing' == found && buf' == buf[found.value := RightSingle])
         && (found.None? ==> closing' == closing && buf' == buf)
         && out == (if found.Some? && !(closing.Some? && i <= closing.value) then LeftSingle else RightSingle))
    && (!Rising(buf, i) && Falling(buf, i) ==> out == RightSingle && buf' == buf && closing' == closing)
    && (!Rising(buf, i) && !Falling(buf, i) && !(PrevClass(buf, i) == Alphanumeric && NextClass(buf, i) == Alphanumeric) ==>
         out == '\'' && buf' == buf && closing' == closing)
  }

  /** The decision for the straight single quote at `i` of the buffer: an apostrophe
      between two alphanumerics, an opening quote when the class rises and a closer
      is found ahead (which is rewritten at once) unless a previous look-ahead's
      closer is still ahead, a closing quote otherwise, and a straight one when the
      class is flat. */
  method SingleQuoteAt(buf: string, i: nat, closing: Option<nat>)
    returns (out: char, found: Option<nat>, buf': string, closing': Option<nat>)
    requires i < |buf| && buf[i] == '\''
    ensures PrevClass(buf, i) == Alphanumeric && NextClass(buf, i) == Alphanumeric ==>
              out == RightSingle && buf' == buf && closing' == closing
    ensures !(PrevClass(buf, i) == Alphanumeric && NextClass(buf, i) == Alphanumeric) && Rising(buf, i) ==>
              && found == FindCloser(buf, i + 1)
              && (found.Some? ==> closing' == found && buf' == buf[found.value := RightSingle])
              && (found.None? ==> closing' == closing && buf' == buf)
              && out == (if found.Some? && !(closing.Some? && i <= closing.value) then LeftSingle else RightSingle)
    ensures !Rising(buf, i) && Falling(buf, i) ==> out == RightSingle && buf' == buf && closing' == closing
    ensures !Rising(buf, i) && !Falling(buf, i) && !(PrevClass(buf, i) == Alphanumeric && NextClass(buf, i) == Alphanumeric) ==>
              out == '\'' && buf' == buf && closing' == closing
  {
    var hasOpenedQuote := closing.Some? && i <= closing.value;
    var prev := PrevClass(buf, i);
    var next := NextClass(buf, i);
    buf', closing' := buf, closing;
    found := None;
    if prev == Alphanumeric && next == Alphanumeric {
      out := RightSingle;
    } else if Below(prev, next) {
      found := FindCloser(buf, i + 1);
      if found.Some? {
        closing' := found;
        buf' := buf[found.value := RightSingle];
      }
      if found.Some? && !hasOpenedQuote {
        out := LeftSingle;
      } else {
        out := RightSingle;
      }
    } else if Below(next, prev) {
      out := RightSingle;
    } else {
      out := '\'';
    }
  }

  /** `quotes` and `typographic_quotes`. The scan starts one character before the
      first straight quote; the characters before it are copied. The source steps
      back one byte instead, which `ByteStepBackPanics` shows can split a character. */
  method Quotes(s: string) returns (r: string)
    ensures |r| == |s|
    ensures forall k :: 0 <= k < |s| && !IsStraightQuote(s[k]) ==> r[k] == s[k]
    ensures forall k :: 0 <= k < |s| ==> DoubleQuoteRule(s, r, k)
    ensures DoublesBalanced(s, r)
    ensures forall k :: 0 <= k < |s| ==> SingleQuoteRule(s, r, k)
    ensures OpenersClosed(s, r)
    ensures OpenersSeparated(s, r)
    ensures FirstRisingOpens(s, r)
    ensures AllInert(s) ==> r == s
    ensures AllInert(r)
    ensures forall k :: 0 <= k < |s| ==> r[k] == QuoteAt(s, k)
    ensures r == QuotesSpec(s)
  {
    var start := ScanStart(s);
    if start.None? {
      QuoteFreeFinal(s);
      return s;
    }
    var from := start.value;
    InvInit(s, from);
    QuoteFreeDecisions(s, from);
    var buf, closing, openedDoubles;
    ghost var mate, separator, lastOpener;
    r, buf, closing, openedDoubles, mate, separator, lastOpener :=
      QuoteLoop(s, s[..from], s, None, 0, map[], map[], None);
    InvFinal(s, r, buf, closing, openedDoubles, mate, separator, lastOpener);
  }

  /** The scan from the state after `r`, to the end of the text. */
  method QuoteLoop(s: string, r0: string, buf0: string, closing0: Option<nat>, openedDoubles0: nat,
                   ghost mate0: map<nat, nat>, ghost separator0: map<nat, nat>, ghost lastOpener0: Option<nat>)
    returns (r: string, buf: string, closing: Option<nat>, openedDoubles: nat,
             ghost mate: map<nat, nat>, ghost separator: map<nat, nat>, ghost lastOpener: Option<nat>)
    requires Inv(s, r0, buf0, closing0, openedDoubles0, mate0, separator0, lastOpener0)
    requires LookState(s, |r0|) == Look(buf0, closing0) && Decided(s, r0)
    ensures |r| == |s| && Decided(s, r)
    ensures Inv(s, r, buf, closing, openedDoubles, mate, separator, lastOpener)
  {
    r, buf, closing, openedDoubles, mate, separator, lastOpener :=
      r0, buf0, closing0, openedDoubles0, mate0, separator0, lastOpener0;
    var i := |r|;
    while i < |s|
      invariant i == |r|
      invariant Inv(s, r, buf, closing, openedDoubles, mate, separator, lastOpener)
      invariant LookState(s, i) == Look(buf, closing)
      invariant Decided(s, r)
      decreases |s| - i
    {
      DecidedExtend(s, r);
      r, buf, closing, openedDoubles, mate, separator, lastOpener, i :=
        QuoteStep(s, r, buf, closing, openedDoubles, mate, separator, lastOpener, i);
    }
  }

  /** One character of the scan at position `|r|`. */
  method QuoteStep(s: string, r: string, buf: string, closing: Option<nat>, openedDoubles: nat,
                   ghost mate: map<nat, nat>, ghost separator: map<nat, nat>, ghost lastOpener: Option<nat>, i: nat)
    returns (r': string, buf': string, closing': Option<nat>, openedDoubles': nat,
             ghost mate': map<nat, nat>, ghost separator': map<nat, nat>, ghost lastOpener': Option<nat>, i': nat)
    requires |r| < |s| && Inv(s, r, buf, closing, openedDoubles, mate, separator, lastOpener)
    requires i == |r| && LookState(s, i) == Look(buf, closing)
    ensures |r'| == |r| + 1 && Inv(s, r', buf', closing', openedDoubles', mate', separator', lastOpener')
    ensures r' == r + [QuoteAt(s, |r|)]
    ensures i' == i + 1 && LookState(s, i') == Look(buf', closing')
  {
    i' := i + 1;
    var c := buf[|r|];
    buf', closing', openedDoubles', mate', separator', lastOpener' :=
      buf, closing, openedDoubles, mate, separator, lastOpener;
    if c == '"' {
      r', openedDoubles' := DoubleQuoteStep(s, r, buf, closing, openedDoubles, mate, separator, lastOpener, i);
    } else if c == '\'' {
      r', buf', closing', mate', separator', lastOpener' :=
        SingleQuoteStep(s, r, buf, closing, openedDoubles, mate, separator, lastOpener, i);
    } else {
      OtherStep(s, r, buf, closing, openedDoubles, mate, separator, lastOpener);
      LookOther(s, buf, closing, i);
      r' := r + [c];
    }
  }

  /** A straight double quote at position `|r|`: opens where the class rises, else
      closes an unclosed one, else stays straight. */
  method DoubleQuoteStep(s: string, r: string, buf: string, closing: Option<nat>, openedDoubles: nat,
                         ghost mate: map<nat, nat>, ghost separator: map<nat, nat>, ghost lastOpener: Option<nat>, i: nat)
    returns (r': string, openedDoubles': nat)
    requires |r| < |s| && Inv(s, r, buf, closing, openedDoubles, mate, separator, lastOpener)
    requires i == |r| && LookState(s, i) == Look(buf, closing) && buf[i] == '"'
    ensures Inv(s, r', buf, closing, openedDoubles', mate, separator, lastOpener)
    ensures r' == r + [QuoteAt(s, |r|)]
    ensures LookState(s, i + 1) == Look(buf, closing)
  {
    var prev := PrevClass(buf, i);
    var next := NextClass(buf, i);
    var out: char;
    var depth := openedDoubles;
    if Below(prev, next) {
      depth := depth + 1;
      out := LeftDouble;
    } else if depth > 0 {
      depth := depth - 1;
      out := RightDouble;
    } else {
      out := '"';
    }
    DoubleStep(s, r, buf, closing, openedDoubles, mate, separator, lastOpener, out, depth);
    LookDouble(s, buf, closing, openedDoubles, i, out);
    openedDoubles' := depth;
    r' := r + [out];
  }

  /** A straight single quote at position `|r|`, decided by `SingleQuoteAt`. */
  method SingleQuoteStep(s: string, r: string, buf: string, closing: Option<nat>, openedDoubles: nat,
                         ghost mate: map<nat, nat>, ghost separator: map<nat, nat>, ghost lastOpener: Option<nat>, i: nat)
    returns (r': string, buf': string, closing': Option<nat>,
             ghost mate': map<nat, nat>, ghost separator': map<nat, nat>, ghost lastOpener': Option<nat>)
    requires |r| < |s| && Inv(s, r, buf, closing, openedDoubles, mate, separator, lastOpener)
    requires i == |r| && LookState(s, i) == Look(buf, closing) && buf[i] == '\''
    ensures Inv(s, r', buf', closing', openedDoubles, mate', separator', lastOpener')
    ensures r' == r + [QuoteAt(s, |r|)]
    ensures LookState(s, i + 1) == Look(buf', closing')
  {
    var out, found, b, cl := SingleQuoteAt(buf, i, closing);
    assert SingleDecision(buf, i, closing, out, found, b, cl);
    mate', separator', lastOpener' :=
      SingleStep(s, r, buf, closing, openedDoubles, mate, separator, lastOpener, out, found, b, cl);
    LookSingle(s, buf, closing, i, out, found, b, cl);
    buf', closing' := b, cl;
    r' := r + [out];
  }

  // ---------------------------------------------------------------------------
  // Proof of the scan
  // ---------------------------------------------------------------------------

  /** The first `|r|` characters emitted are the decisions `QuoteAt`. */
  predicate Decided(s: string, r: string) {
    |r| <= |s| && forall k :: 0 <= k < |r| ==> r[k] == QuoteAt(s, k)
  }

  lemma DecidedExtend(s: string, r: string)
    requires Decided(s, r) && |r| < |s|
    ensures Decided(s, r + [QuoteAt(s, |r|)])
  {
    var r' := r + [QuoteAt(s, |r|)];
    forall k | 0 <= k < |r'|
      ensures r'[k] == QuoteAt(s, k)
    {
      if k < |r| {
        assert r'[k] == r[k];
      }
    }
  }

  /** A double quote of the buffer: its decision, and no look-ahead. */
  lemma LookDouble(s: string, buf: string, closing: Option<nat>, depth: nat, i: nat, out: char)
    requires i < |s| && Rewritten(s, buf) && LookState(s, i) == Look(buf, closing)
    requires buf[i] == '"' && depth == DepthBefore(s, i)
    requires out == if Rising(buf, i) then LeftDouble else if depth > 0 then RightDouble else '"'
    ensures LookState(s, i + 1) == Look(buf, closing) && out == QuoteAt(s, i)
  {
    BufferQuote(s, buf, i);
  }

  /** Any other character of the buffer is copied, with no look-ahead. */
  lemma LookOther(s: string, buf: string, closing: Option<nat>, i: nat)
    requires i < |s| && Rewritten(s, buf) && LookState(s, i) == Look(buf, closing)
    requires !IsStraightQuote(buf[i])
    ensures LookState(s, i + 1) == Look(buf, closing) && buf[i] == QuoteAt(s, i)
  {
  }

  /** A single quote of the buffer: `SingleQuoteAt` makes the decision `QuoteAt`
      and the look-ahead `LookStep`. */
  lemma LookSingle(s: string, buf: string, closing: Option<nat>, i: nat,
                   out: char, found: Option<nat>, buf': string, closing': Option<nat>)
    requires i < |s| && Rewritten(s, buf) && LookState(s, i) == Look(buf, closing) && buf[i] == '\''
    requires SingleDecision(buf, i, closing, out, found, buf', closing')
    ensures LookState(s, i + 1) == Look(buf', closing') && out == QuoteAt(s, i)
  {
    BufferQuote(s, buf, i);
  }

  lemma {:induction false} DepthZeroWithoutDoubles(s: string, n: nat)
    requires n <= |s|
    requires forall k :: 0 <= k < n ==> s[k] != '"'
    ensures DepthBefore(s, n) == 0
    decreases n
  {
    if n > 0 {
      DepthZeroWithoutDoubles(s, n - 1);
    }
  }

  lemma {:induction false} InertDepthZero(s: string, n: nat)
    requires n <= |s| && AllInert(s)
    ensures DepthBefore(s, n) == 0
    decreases n
  {
    if n > 0 {
      InertDepthZero(s, n - 1);
      assert Inert(s, n - 1);
    }
  }

  lemma InertNoRising(s: string, n: nat)
    requires n <= |s| && AllInert(s)
    ensures NoRisingSingleBefore(s, n)
  {
    forall k | 0 <= k < n && s[k] == '\''
      ensures !Rising(s, k)
    {
      assert Inert(s, k);
    }
  }

  /** The counter is the number of opening minus closing double quotes emitted. */
  lemma {:induction false} CountsTrackDepth(s: string, r: string, n: nat)
    requires n <= |s| && |r| == |s|
    requires forall k :: 0 <= k < |s| ==> DoubleDepthRule(s, r, k)
    ensures DoubleCount(s, r, n, LeftDouble) == DoubleCount(s, r, n, RightDouble) + DepthBefore(s, n)
    decreases n
  {
    if n > 0 {
      CountsTrackDepth(s, r, n - 1);
      assert DoubleDepthRule(s, r, n - 1);
    }
  }

  lemma QuoteFreeUnchanged(s: string)
    requires forall k :: 0 <= k < |s| ==> !IsStraightQuote(s[k])
    ensures forall k :: 0 <= k < |s| ==> DoubleQuoteRule(s, s, k) && SingleQuoteRule(s, s, k)
    ensures AllInert(s) && FirstRisingOpens(s, s) && DoublesBalanced(s, s)
    ensures OpenersClosed(s, s) && OpenersSeparated(s, s)
  {
    forall n | 0 <= n <= |s|
      ensures DoubleCount(s, s, n, RightDouble) <= DoubleCount(s, s, n, LeftDouble)
    {
      NoDoublesNoCount(s, s, n, RightDouble);
    }
  }

  /** A text without straight quotes is its own result. */
  lemma QuoteFreeFinal(s: string)
    requires forall k :: 0 <= k < |s| ==> !IsStraightQuote(s[k])
    ensures forall k :: 0 <= k < |s| ==> DoubleQuoteRule(s, s, k) && SingleQuoteRule(s, s, k)
    ensures AllInert(s) && FirstRisingOpens(s, s) && DoublesBalanced(s, s)
    ensures OpenersClosed(s, s) && OpenersSeparated(s, s)
    ensures s == QuotesSpec(s)
  {
    QuoteFreeUnchanged(s);
    QuoteFreeDecisions(s, |s|);
  }

  /** Before the first straight quote nothing looks ahead and every character is copied. */
  lemma {:induction false} QuoteFreeLook(s: string, n: nat)
    requires n <= |s|
    requires forall k :: 0 <= k < n ==> !IsStraightQuote(s[k])
    ensures LookState(s, n) == Look(s, None)
    decreases n
  {
    if n > 0 {
      QuoteFreeLook(s, n - 1);
      assert !LooksAhead(s, s, n - 1);
    }
  }

  lemma QuoteFreeDecisions(s: string, n: nat)
    requires n <= |s|
    requires forall k :: 0 <= k < n ==> !IsStraightQuote(s[k])
    ensures LookState(s, n) == Look(s, None)
    ensures forall k :: 0 <= k < n ==> QuoteAt(s, k) == s[k]
  {
    QuoteFreeLook(s, n);
    forall k | 0 <= k < n
      ensures QuoteAt(s, k) == s[k]
    {
      QuoteFreeLook(s, k);
    }
  }

  lemma {:induction false} NoDoublesNoCount(s: string, r: string, n: nat, c: char)
    requires n <= |s| && n <= |r|
    requires forall k :: 0 <= k < n ==> s[k] != '"'
    ensures DoubleCount(s, r, n, c) == 0
    decreases n
  {
    if n > 0 {
      NoDoublesNoCount(s, r, n - 1, c);
    }
  }

  lemma InvInit(s: string, from: nat)
    requires from <= |s|
    requires forall k :: 0 <= k < from ==> !IsStraightQuote(s[k])
    ensures Inv(s, s[..from], s, None, 0, map[], map[], None)
  {
    DepthZeroWithoutDoubles(s, from);
    assert NoRisingSingleBefore(s, from);
  }

  /** The buffer holds a straight quote only where the input does, and agrees with it on classes. */
  lemma BufferQuote(s: string, buf: string, i: nat)
    requires Rewritten(s, buf) && i < |s|
    ensures buf[i] == '"' ==> s[i] == '"'
    ensures buf[i] == '\'' ==> s[i] == '\''
    ensures Rising(buf, i) == Rising(s, i) && Falling(buf, i) == Falling(s, i)
    ensures PrevClass(buf, i) == PrevClass(s, i) && NextClass(buf, i) == NextClass(s, i)
  {
    RewrittenSameClasses(s, buf);
    SameClassesDecisions(s, buf, i);
  }

  /** Extending the emitted text by `x` keeps the per-position rules when `x` obeys them. */
  lemma ExtendRules(s: string, r: string, x: char)
    requires |r| < |s|
    requires forall k :: 0 <= k < |r| ==> DoubleDepthRule(s, r, k)
    requires forall k :: 0 <= k < |r| ==> SingleQuoteRule(s, r, k)
    requires DoubleDepthRule(s, r + [x], |r|) && SingleQuoteRule(s, r + [x], |r|)
    ensures forall k :: 0 <= k < |r| + 1 ==> DoubleDepthRule(s, r + [x], k)
    ensures forall k :: 0 <= k < |r| + 1 ==> SingleQuoteRule(s, r + [x], k)
  {
    var r' := r + [x];
    forall k | 0 <= k < |r'|
      ensures DoubleDepthRule(s, r', k) && SingleQuoteRule(s, r', k)
    {
      if k < |r| {
        assert r'[k] == r[k];
        assert DoubleDepthRule(s, r, k) && SingleQuoteRule(s, r, k);
      }
    }
  }

  /** Extending the emitted text keeps it a copy outside quotes and keeps the first
      rising quote opening. */
  lemma ExtendCopied(s: string, r: string, x: char)
    requires |r| < |s| && Copied(s, r) && FirstRisingOpens(s, r)
    requires !IsStraightQuote(s[|r|]) ==> x == s[|r|]
    requires s[|r|] == '\'' && Rising(s, |r|) && NoRisingSingleBefore(s, |r|) && FindCloser(s, |r| + 1).Some?
             ==> x == LeftSingle
    ensures Copied(s, r + [x]) && FirstRisingOpens(s, r + [x])
  {
    var r' := r + [x];
    forall k | 0 <= k < |r'| && !IsStraightQuote(s[k])
      ensures r'[k] == s[k]
    {
      if k < |r| {
        assert r'[k] == r[k];
      }
    }
    forall k | 0 <= k < |r'| && s[k] == '\'' && Rising(s, k) && NoRisingSingleBefore(s, k) && FindCloser(s, k + 1).Some?
      ensures r'[k] == LeftSingle
    {
      if k < |r| {
        assert r'[k] == r[k];
      }
    }
  }

  /** Emitting `x` for position `|r|` keeps the emitted-prefix invariant when `x`
      obeys the rules at that position. */
  lemma ExtendEmitted(s: string, r: string, depth: nat, x: char, depth': nat)
    requires |r| < |s| && EmittedInv(s, r, depth)
    requires !IsStraightQuote(s[|r|]) ==> x == s[|r|]
    requires DoubleDepthRule(s, r + [x], |r|) && SingleQuoteRule(s, r + [x], |r|)
    requires s[|r|] == '\'' && Rising(s, |r|) && NoRisingSingleBefore(s, |r|) && FindCloser(s, |r| + 1).Some?
             ==> x == LeftSingle
    requires depth' == DepthBefore(s, |r| + 1)
    requires AllInert(s) ==> x == s[|r|]
    ensures EmittedInv(s, r + [x], depth')
  {
    ExtendRules(s, r, x);
    ExtendCopied(s, r, x);
    if AllInert(s) {
      assert r + [x] == s[..|r| + 1];
    }
  }

  /** Advancing past position `|r|` keeps the buffer invariant when at most one closer
      after it is rewritten and recorded in `closing'`. */
  lemma ExtendBuffer(s: string, r: string, x: char, buf: string, closing: Option<nat>,
                     buf': string, closing': Option<nat>)
    requires |r| < |s| && Rewritten(s, buf) && BufferInv(s, r, buf, closing)
    requires buf[|r|] != s[|r|] ==> x == RightSingle
    requires || (buf' == buf && closing' == closing)
             || (&& closing'.Some? && |r| < closing'.value && CloserAt(s, closing'.value)
                 && buf[closing'.value] == '\'' && buf' == buf[closing'.value := RightSingle])
    requires NoRisingSingleBefore(s, |r| + 1) ==> buf' == buf && closing' == closing
    ensures Rewritten(s, buf')
    ensures BufferInv(s, r + [x], buf', closing')
  {
    var r' := r + [x];
    assert forall k :: 0 <= k < |r| ==> r'[k] == r[k];
    if NoRisingSingleBefore(s, |r| + 1) {
      assert NoRisingSingleBefore(s, |r|);
    }
  }

  /** Emitting anything but an opening single quote keeps the opener bookkeeping. */
  lemma OpenerKeep(s: string, r: string, x: char, buf: string, closing: Option<nat>, buf': string, closing': Option<nat>,
                   mate: map<nat, nat>, separator: map<nat, nat>, lastOpener: Option<nat>)
    requires |r| < |s| && Rewritten(s, buf) && Rewritten(s, buf')
    requires OpenerInv(s, r, buf, closing, mate, separator, lastOpener)
    requires !(s[|r|] == '\'' && x == LeftSingle)
    requires forall k :: 0 <= k < |s| && buf[k] == RightSingle ==> buf'[k] == RightSingle
    requires lastOpener.Some? ==> closing'.Some? && lastOpener.value < closing'.value
    ensures OpenerInv(s, r + [x], buf', closing', mate, separator, lastOpener)
  {
    var r' := r + [x];
    assert forall k :: 0 <= k < |r| ==> r'[k] == r[k];
    assert forall k :: 0 <= k < |r'| && OpenerAt(s, r', k) ==> k < |r| && OpenerAt(s, r, k);
  }

  /** Emitting an opening single quote whose look-ahead rewrote the closer `j`,
      when the previous look-ahead's closer is behind it. */
  lemma OpenerAdd(s: string, r: string, buf: string, closing: Option<nat>, buf': string, j: nat,
                  mate: map<nat, nat>, separator: map<nat, nat>, lastOpener: Option<nat>)
    requires |r| < |s| && Rewritten(s, buf) && Rewritten(s, buf')
    requires OpenerInv(s, r, buf, closing, mate, separator, lastOpener)
    requires s[|r|] == '\''
    requires |r| < j && CloserAt(s, j) && buf'[j] == RightSingle
    requires forall k :: 0 <= k < |s| && buf[k] == RightSingle ==> buf'[k] == RightSingle
    requires closing.None? || closing.value < |r|
    requires closing.Some? ==> CloserAt(s, closing.value) && buf[closing.value] == RightSingle
    ensures OpenerInv(s, r + [LeftSingle], buf', Some(j), mate[|r| := j],
                      if lastOpener.Some? then separator[|r| := closing.value] else separator, Some(|r|))
  {
    var i := |r|;
    var r' := r + [LeftSingle];
    var mate' := mate[i := j];
    var separator' := if lastOpener.Some? then separator[i := closing.value] else separator;
    assert forall k :: k in mate' ==> k < mate'[k] && CloserAt(s, mate'[k]) && buf'[mate'[k]] == RightSingle by {
      forall k | k in mate'
        ensures k < mate'[k] && CloserAt(s, mate'[k]) && buf'[mate'[k]] == RightSingle
      {
        if k != i {
          assert mate'[k] == mate[k];
        }
      }
    }
    assert forall k' :: k' in separator' ==>
             separator'[k'] < k' && CloserAt(s, separator'[k']) && buf'[separator'[k']] == RightSingle by {
      forall k' | k' in separator'
        ensures separator'[k'] < k' && CloserAt(s, separator'[k']) && buf'[separator'[k']] == RightSingle
      {
        if k' != i || lastOpener.None? {
          assert k' in separator && separator'[k'] == separator[k'];
        }
      }
    }
    assert forall k :: 0 <= k < |r'| && OpenerAt(s, r', k) ==> k in mate' && k <= i by {
      assert forall k :: 0 <= k < |r| ==> r'[k] == r[k];
      forall k | 0 <= k < |r'| && OpenerAt(s, r', k)
        ensures k in mate' && k <= i
      {
        if k < i {
          assert OpenerAt(s, r, k);
        }
      }
    }
    OpenerAddPairs(s, r, buf, closing, mate, separator, lastOpener, separator');
    assert OpenerInv(s, r', buf', Some(j), mate', separator', Some(i));
  }

  /** Every pair of openers, the new one included, has a separating closer. */
  lemma OpenerAddPairs(s: string, r: string, buf: string, closing: Option<nat>,
                       mate: map<nat, nat>, separator: map<nat, nat>, lastOpener: Option<nat>,
                       separator': map<nat, nat>)
    requires |r| < |s| && Rewritten(s, buf)
    requires OpenerInv(s, r, buf, closing, mate, separator, lastOpener)
    requires closing.None? || closing.value < |r|
    requires separator' == if lastOpener.Some? then separator[|r| := closing.value] else separator
    ensures forall k, k' :: 0 <= k < k' < |r| + 1 && OpenerAt(s, r + [LeftSingle], k) && OpenerAt(s, r + [LeftSingle], k') ==>
              k' in separator' && k < separator'[k']
  {
    var i := |r|;
    var r' := r + [LeftSingle];
    assert forall k :: 0 <= k < |r| ==> r'[k] == r[k];
    forall k, k' | 0 <= k < k' < |r'| && OpenerAt(s, r', k) && OpenerAt(s, r', k')
      ensures k' in separator' && k < separator'[k']
    {
      assert OpenerAt(s, r, k);
      if k' < i {
        assert OpenerAt(s, r, k');
      }
    }
  }

  lemma DoubleStep(s: string, r: string, buf: string, closing: Option<nat>, depth: nat,
                   mate: map<nat, nat>, separator: map<nat, nat>, lastOpener: Option<nat>, out: char, depth': nat)
    requires Inv(s, r, buf, closing, depth, mate, separator, lastOpener)
    requires |r| < |s| && buf[|r|] == '"'
    requires Rising(buf, |r|) ==> out == LeftDouble && depth' == depth + 1
    requires !Rising(buf, |r|) && depth > 0 ==> out == RightDouble && depth' == depth - 1
    requires !Rising(buf, |r|) && depth == 0 ==> out == '"' && depth' == depth
    ensures Inv(s, r + [out], buf, closing, depth', mate, separator, lastOpener)
  {
    var i := |r|;
    BufferQuote(s, buf, i);
    if AllInert(s) {
      InertDepthZero(s, i);
      assert Inert(s, i);
    }
    ExtendEmitted(s, r, depth, out, depth');
    ExtendBuffer(s, r, out, buf, closing, buf, closing);
    OpenerKeep(s, r, out, buf, closing, buf, closing, mate, separator, lastOpener);
  }

  lemma OtherStep(s: string, r: string, buf: string, closing: Option<nat>, depth: nat,
                  mate: map<nat, nat>, separator: map<nat, nat>, lastOpener: Option<nat>)
    requires Inv(s, r, buf, closing, depth, mate, separator, lastOpener)
    requires |r| < |s| && !IsStraightQuote(buf[|r|])
    ensures Inv(s, r + [buf[|r|]], buf, closing, depth, mate, separator, lastOpener)
  {
    var i := |r|;
    var x := buf[i];
    if buf[i] != s[i] {
      assert CloserAt(s, i);
    }
    if AllInert(s) {
      InertNoRising(s, i);
    }
    ExtendEmitted(s, r, depth, x, depth);
    ExtendBuffer(s, r, x, buf, closing, buf, closing);
    OpenerKeep(s, r, x, buf, closing, buf, closing, mate, separator, lastOpener);
  }

  /** The emitted-prefix half of `SingleStep`. */
  lemma SingleEmitted(s: string, r: string, buf: string, closing: Option<nat>, depth: nat,
                   mate: map<nat, nat>, separator: map<nat, nat>, lastOpener: Option<nat>,
                   out: char, found: Option<nat>, buf': string, closing': Option<nat>)
    requires Inv(s, r, buf, closing, depth, mate, separator, lastOpener)
    requires |r| < |s| && buf[|r|] == '\''
    requires |r| < |buf| && SingleDecision(buf, |r|, closing, out, found, buf', closing')
    ensures EmittedInv(s, r + [out], depth)
  {
    var i := |r|;
    BufferQuote(s, buf, i);
    RewrittenSameClasses(s, buf);
    if AllInert(s) {
      assert Inert(s, i);
    }
    if NoRisingSingleBefore(s, i) && Rising(s, i) && FindCloser(s, i + 1).Some? {
      assert FindCloser(buf, i + 1) == FindCloser(s, i + 1);
    }
    ExtendEmitted(s, r, depth, out, depth);
  }

  /** One straight single quote: the emitted quote obeys the rules, and the
      look-ahead rewrites at most one closer and records a new opener. */
  lemma SingleStep(s: string, r: string, buf: string, closing: Option<nat>, depth: nat,
                   mate: map<nat, nat>, separator: map<nat, nat>, lastOpener: Option<nat>,
                   out: char, found: Option<nat>, buf': string, closing': Option<nat>)
    returns (mate': map<nat, nat>, separator': map<nat, nat>, lastOpener': Option<nat>)
    requires Inv(s, r, buf, closing, depth, mate, separator, lastOpener)
    requires |r| < |s| && buf[|r|] == '\''
    requires |r| < |buf| && SingleDecision(buf, |r|, closing, out, found, buf', closing')
    ensures Inv(s, r + [out], buf', closing', depth, mate', separator', lastOpener')
  {
    var i := |r|;
    SingleEmitted(s, r, buf, closing, depth, mate, separator, lastOpener, out, found, buf', closing');
    BufferQuote(s, buf, i);
    RewrittenSameClasses(s, buf);
    mate', separator', lastOpener' := mate, separator, lastOpener;
    var aa := PrevClass(s, i) == Alphanumeric && NextClass(s, i) == Alphanumeric;
    if !aa && Rising(s, i) && found.Some? {
      var j := found.value;
      assert i < j && CloserAt(s, j) && buf[j] == '\'';
      ExtendBuffer(s, r, out, buf, closing, buf', closing');
      if out == LeftSingle {
        OpenerAdd(s, r, buf, closing, buf', j, mate, separator, lastOpener);
        mate' := mate[i := j];
        lastOpener' := Some(i);
        if lastOpener.Some? {
          separator' := separator[i := closing.value];
        }
      } else {
        OpenerKeep(s, r, out, buf, closing, buf', closing', mate, separator, lastOpener);
      }
    } else {
      ExtendBuffer(s, r, out, buf, closing, buf', closing');
      OpenerKeep(s, r, out, buf, closing, buf', closing', mate, separator, lastOpener);
    }
  }

  /** At the end of the scan, the double-quote decisions made against the counter
      are the decisions of `DoubleQuoteRule`, and the counts stay balanced. */
  lemma FinalDoubles(s: string, r: string, depth: nat)
    requires |r| == |s| && EmittedInv(s, r, depth)
    ensures forall k :: 0 <= k < |s| ==> DoubleQuoteRule(s, r, k)
    ensures DoublesBalanced(s, r)
  {
    forall n | 0 <= n <= |s|
      ensures DoubleCount(s, r, n, RightDouble) <= DoubleCount(s, r, n, LeftDouble)
    {
      CountsTrackDepth(s, r, n);
    }
    forall k | 0 <= k < |s|
      ensures DoubleQuoteRule(s, r, k)
    {
      CountsTrackDepth(s, r, k);
      assert DoubleDepthRule(s, r, k);
    }
  }

  /** At the end of the scan, every opening single quote has its rewritten closer,
      and consecutive ones a separating closer. */
  lemma FinalOpeners(s: string, r: string, buf: string, closing: Option<nat>,
                     mate: map<nat, nat>, separator: map<nat, nat>, lastOpener: Option<nat>)
    requires |r| == |s| && Rewritten(s, buf)
    requires BufferInv(s, r, buf, closing)
    requires OpenerInv(s, r, buf, closing, mate, separator, lastOpener)
    ensures OpenersClosed(s, r)
    ensures OpenersSeparated(s, r)
  {
    forall k | 0 <= k < |s| && OpenerAt(s, r, k)
      ensures exists j :: k < j < |s| && CloserAt(s, j) && r[j] == RightSingle
    {
      var j := mate[k];
      assert buf[j] != s[j];
    }
    forall k, k' | 0 <= k < k' < |s| && OpenerAt(s, r, k) && OpenerAt(s, r, k')
      ensures exists j :: k < j < k' && CloserAt(s, j) && r[j] == RightSingle
    {
      var j := separator[k'];
      assert buf[j] != s[j];
    }
  }

  lemma InvFinal(s: string, r: string, buf: string, closing: Option<nat>, depth: nat,
                 mate: map<nat, nat>, separator: map<nat, nat>, lastOpener: Option<nat>)
    requires |r| == |s|
    requires Inv(s, r, buf, closing, depth, mate, separator, lastOpener) && Decided(s, r)
    ensures forall k :: 0 <= k < |s| && !IsStraightQuote(s[k]) ==> r[k] == s[k]
    ensures forall k :: 0 <= k < |s| ==> DoubleQuoteRule(s, r, k)
    ensures DoublesBalanced(s, r)
    ensures forall k :: 0 <= k < |s| ==> SingleQuoteRule(s, r, k)
    ensures OpenersClosed(s, r)
    ensures OpenersSeparated(s, r)
    ensures FirstRisingOpens(s, r)
    ensures AllInert(s) ==> r == s
    ensures AllInert(r)
    ensures forall k :: 0 <= k < |s| ==> r[k] == QuoteAt(s, k)
    ensures r == QuotesSpec(s)
  {
    FinalDoubles(s, r, depth);
    FinalOpeners(s, r, buf, closing, mate, separator, lastOpener);
    RulesLeaveInert(s, r);
    assert s[..|s|] == s;
  }

  /** A text obeying the quote rules against its input leaves only inert straight quotes. */
  lemma RulesLeaveInert(s: string, r: string)
    requires |r| == |s|
    requires forall k :: 0 <= k < |s| && !IsStraightQuote(s[k]) ==> r[k] == s[k]
    requires forall k :: 0 <= k < |s| ==> DoubleQuoteRule(s, r, k)
    requires forall k :: 0 <= k < |s| ==> SingleQuoteRule(s, r, k)
    ensures AllInert(r)
  {
    QuoteClasses();
    assert SameClasses(s, r) by {
      forall k | 0 <= k < |s|
        ensures ClassOf(s[k]) == ClassOf(r[k])
      {
        assert DoubleQuoteRule(s, r, k) && SingleQuoteRule(s, r, k);
      }
    }
    forall k | 0 <= k < |r|
      ensures Inert(r, k)
    {
      SameClassesDecisions(s, r, k);
      assert DoubleQuoteRule(s, r, k) && SingleQuoteRule(s, r, k);
    }
  }
}
