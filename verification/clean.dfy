/**
 * The generic cleaning passes of `clean`: whitespace collapsing, the
 * three-way character classifier, and the ellipsis, dash and guillemet
 * ligatures. The quote pass is in module CleanQuotes.
 *
 * Each pass of the source first asks a regex for the leftmost trigger,
 * returns its input untouched when there is none, and otherwise copies the
 * text before the trigger and runs its scan from there. The passes below do
 * the same; the `...Scan` lemmas show that starting at the trigger is the
 * same as scanning the whole text.
 */
module Clean {
  import opened Unicode
  import opened Common
  import opened Maybe
  import opened SeqFacts

  // ---------------------------------------------------------------------------
  // Character classes
  // ---------------------------------------------------------------------------

  /** `CharClass`, ordered Whitespace < Punctuation < Alphanumeric. */
  datatype CharClass = Whitespace | Punctuation | Alphanumeric

  function Rank(k: CharClass): nat {
    match k
    case Whitespace => 0
    case Punctuation => 1
    case Alphanumeric => 2
  }

  /** The derived `<` of `CharClass`. */
  predicate Below(a: CharClass, b: CharClass) {
    Rank(a) < Rank(b)
  }

  /** `char_class`: alphanumeric first, then whitespace, everything else is punctuation. */
  function ClassOf(c: char): (k: CharClass)
    ensures k == Alphanumeric <==> IsAlphanumeric(c)
    ensures k == Whitespace <==> IsWhitespace(c)
    ensures k == Punctuation <==> !IsAlphanumeric(c) && !IsWhitespace(c)
  {
    CaseFacts(c);
    if IsAlphanumeric(c) then Alphanumeric
    else if IsWhitespace(c) then Whitespace
    else Punctuation
  }

  /** The class order is a strict total order, so exactly one of `<`, `==`, `>` holds. */
  lemma BelowIsStrictTotalOrder(a: CharClass, b: CharClass, c: CharClass)
    ensures !Below(a, a)
    ensures Below(a, b) && Below(b, c) ==> Below(a, c)
    ensures a != b ==> Below(a, b) || Below(b, a)
    ensures !(Below(a, b) && Below(b, a))
  {
  }

  // ---------------------------------------------------------------------------
  // whitespaces
  // ---------------------------------------------------------------------------

  /** The character class of the prefilter regex: the space-like characters and the en space. */
  predicate InRunClass(c: char) {
    IsSpaceLike(c) || c == NbCharEm
  }

  /** The prefilter regex matches at `k`: two run-class characters in a row. */
  predicate RunAt(s: string, k: nat) {
    k + 1 < |s| && InRunClass(s[k]) && InRunClass(s[k + 1])
  }

  /** Leftmost match of the prefilter at or after `i`. */
  function FindRun(s: string, i: nat): (r: Option<nat>)
    requires i <= |s|
    ensures r.Some? ==> i <= r.value && RunAt(s, r.value)
                        && forall k: nat :: i <= k < r.value ==> !RunAt(s, k)
    ensures r.None? ==> forall k: nat :: i <= k ==> !RunAt(s, k)
    decreases |s| - i
  {
    if i + 1 >= |s| then None
    else if RunAt(s, i) then Some(i)
    else FindRun(s, i + 1)
  }

  /** Position `i` survives the collapse: it is not a space-like character right after another one.
      This keeps the first character of every maximal space-like run and every other character. */
  predicate Kept(s: string, i: nat)
    requires i < |s|
  {
    !(i > 0 && IsSpaceLike(s[i - 1]) && IsSpaceLike(s[i]))
  }

  /** The kept characters of `s[i..]`, in order. */
  function CollapseFrom(s: string, i: nat): string
    requires i <= |s|
    decreases |s| - i
  {
    if i == |s| then []
    else (if Kept(s, i) then [s[i]] else []) + CollapseFrom(s, i + 1)
  }

  /** Reference definition of whitespace collapsing over the whole text. */
  function Collapse(s: string): string {
    CollapseFrom(s, 0)
  }

  /** No two space-like characters are adjacent. */
  predicate NoSpaceRun(s: string) {
    forall k :: 0 < k < |s| ==> !(IsSpaceLike(s[k - 1]) && IsSpaceLike(s[k]))
  }

  /** `whitespaces` (src/lib/clean.rs) and `remove_whitespaces` (src/clean.rs):
      copy up to the first prefilter match, then drop every space-like character
      that follows another one. */
  method Whitespaces(s: string) returns (r: string)
    ensures r == Collapse(s)
    ensures (forall k: nat :: !RunAt(s, k)) ==> r == s
  {
    var first := FindRun(s, 0);
    if first.None? {
      CollapseUnchangedWithoutRun(s);
      return s;
    }
    var start := first.value;
    CollapseCopiesPrefix(s, 0, start);
    r := CollapseRest(s, start, s[..start]);
  }

  /** The loop of `whitespaces` after the first match: `prefix` is what was copied
      before `start`. */
  method CollapseRest(s: string, start: nat, prefix: string) returns (r: string)
    requires start <= |s| && prefix + CollapseFrom(s, start) == Collapse(s)
    requires start > 0 ==> !IsSpaceLike(s[start - 1])
    ensures r == Collapse(s)
  {
    r := prefix;
    var previousSpace := false;
    var i := start;
    while i < |s|
      invariant start <= i <= |s|
      invariant r + CollapseFrom(s, i) == Collapse(s)
      invariant previousSpace == (i > 0 && IsSpaceLike(s[i - 1]))
    {
      var c := s[i];
      ghost var before := r;
      if IsSpaceLike(c) {
        if !previousSpace {
          r := r + [c];
          previousSpace := true;
        }
      } else {
        previousSpace := false;
        r := r + [c];
      }
      CollapseLoopStep(s, before, r, i);
      i := i + 1;
    }
  }

  /** The loop of `Whitespaces` keeps its invariant: it emits position `i` exactly
      when the position is kept. */
  lemma CollapseLoopStep(s: string, r: string, r': string, i: nat)
    requires i < |s| && r + CollapseFrom(s, i) == Collapse(s)
    requires r' == if Kept(s, i) then r + [s[i]] else r
    ensures r' + CollapseFrom(s, i + 1) == Collapse(s)
  {
    CollapseFromStep(s, r, i);
  }

  /** One step of the collapse scan: position `i` is emitted exactly when it is kept. */
  lemma CollapseFromStep(s: string, r: string, i: nat)
    requires i < |s|
    ensures Kept(s, i) ==> CollapseFrom(s, i) == [s[i]] + CollapseFrom(s, i + 1)
    ensures Kept(s, i) ==> r + CollapseFrom(s, i) == (r + [s[i]]) + CollapseFrom(s, i + 1)
    ensures !Kept(s, i) ==> r + CollapseFrom(s, i) == r + CollapseFrom(s, i + 1)
  {
    assert CollapseFrom(s, i) == (if Kept(s, i) then [s[i]] else []) + CollapseFrom(s, i + 1);
  }

  /** Positions that are all kept are copied verbatim. */
  lemma {:induction false} CollapseCopiesKept(s: string, i: nat, j: nat)
    requires i <= j <= |s|
    requires forall k :: i <= k < j ==> Kept(s, k)
    ensures CollapseFrom(s, i) == s[i..j] + CollapseFrom(s, j)
    decreases j - i
  {
    if i < j {
      CollapseFromStep(s, [], i);
      CollapseCopiesKept(s, i + 1, j);
      CopyStep(s, i, j, CollapseFrom(s, i), CollapseFrom(s, i + 1), CollapseFrom(s, j));
    }
  }

  /** Before the leftmost prefilter match every position is kept. */
  lemma CollapseCopiesPrefix(s: string, i: nat, start: nat)
    requires i <= start && RunAt(s, start)
    requires forall k: nat :: i <= k < start ==> !RunAt(s, k)
    requires i == 0
    ensures CollapseFrom(s, 0) == s[..start] + CollapseFrom(s, start)
    ensures start > 0 ==> !IsSpaceLike(s[start - 1])
  {
    forall k | 0 <= k < start
      ensures Kept(s, k)
    {
      if k > 0 {
        assert !RunAt(s, k - 1);
      }
    }
    if start > 0 {
      assert !RunAt(s, start - 1);
    }
    CollapseCopiesKept(s, 0, start);
  }

  /** Without any prefilter match the collapse changes nothing. */
  lemma CollapseUnchangedWithoutRun(s: string)
    requires forall k: nat :: !RunAt(s, k)
    ensures Collapse(s) == s
  {
    forall k | 0 <= k < |s|
      ensures Kept(s, k)
    {
      if k > 0 {
        assert !RunAt(s, k - 1);
      }
    }
    CollapseCopiesKept(s, 0, |s|);
  }

  /** The collapse never lengthens, and keeps everything exactly when every position is kept. */
  lemma {:induction false} CollapseLength(s: string, i: nat)
    requires i <= |s|
    ensures |CollapseFrom(s, i)| <= |s| - i
    ensures |CollapseFrom(s, i)| == |s| - i <==> forall k :: i <= k < |s| ==> Kept(s, k)
    decreases |s| - i
  {
    if i < |s| {
      CollapseLength(s, i + 1);
    }
  }

  /** After a space-like character the collapse of the rest cannot start with one. */
  lemma {:induction false} CollapseHeadAfterSpace(s: string, i: nat)
    requires 0 < i <= |s| && IsSpaceLike(s[i - 1])
    ensures |CollapseFrom(s, i)| > 0 ==> !IsSpaceLike(CollapseFrom(s, i)[0])
    decreases |s| - i
  {
    if i < |s| && !Kept(s, i) {
      CollapseHeadAfterSpace(s, i + 1);
    }
  }

  lemma {:induction false} CollapseFromHasNoRun(s: string, i: nat)
    requires i <= |s|
    ensures NoSpaceRun(CollapseFrom(s, i))
    decreases |s| - i
  {
    if i < |s| {
      CollapseFromHasNoRun(s, i + 1);
      var rest := CollapseFrom(s, i + 1);
      if Kept(s, i) && IsSpaceLike(s[i]) {
        CollapseHeadAfterSpace(s, i + 1);
      }
      var r := CollapseFrom(s, i);
      forall k | 0 < k < |r|
        ensures !(IsSpaceLike(r[k - 1]) && IsSpaceLike(r[k]))
      {
        if Kept(s, i) && k >= 2 {
          assert r[k - 1] == rest[k - 2] && r[k] == rest[k - 1];
        }
      }
    }
  }

  /** The space-like characters removed from a text, everything else in order. */
  function NonSpace(s: string): string {
    if |s| == 0 then []
    else (if IsSpaceLike(s[0]) then [] else [s[0]]) + NonSpace(s[1..])
  }

  lemma {:induction false} NonSpaceAppend(a: string, b: string)
    ensures NonSpace(a + b) == NonSpace(a) + NonSpace(b)
    decreases |a|
  {
    if |a| > 0 {
      assert (a + b)[1..] == a[1..] + b;
      NonSpaceAppend(a[1..], b);
    } else {
      assert a + b == b;
    }
  }

  lemma {:induction false} CollapseFromKeepsNonSpace(s: string, i: nat)
    requires i <= |s|
    ensures NonSpace(CollapseFrom(s, i)) == NonSpace(s[i..])
    decreases |s| - i
  {
    if i < |s| {
      CollapseFromKeepsNonSpace(s, i + 1);
      NonSpaceAppend(if Kept(s, i) then [s[i]] else [], CollapseFrom(s, i + 1));
      assert s[i..][1..] == s[i + 1..];
    }
  }

  /** Collapsing: never longer; no two space-like characters left adjacent; every
      other character (tabs and newlines included) kept in order; nothing trimmed at
      either end. */
  lemma CollapseProperties(s: string)
    ensures |Collapse(s)| <= |s|
    ensures NoSpaceRun(Collapse(s))
    ensures NonSpace(Collapse(s)) == NonSpace(s)
    ensures |s| > 0 ==> |Collapse(s)| > 0 && Collapse(s)[0] == s[0]
    ensures |s| > 0 ==> (IsSpaceLike(Collapse(s)[|Collapse(s)| - 1]) <==> IsSpaceLike(s[|s| - 1]))
  {
    CollapseLength(s, 0);
    CollapseFromHasNoRun(s, 0);
    CollapseFromKeepsNonSpace(s, 0);
    assert s[0..] == s;
    if |s| > 0 {
      CollapseLastChar(s, 0);
    }
  }

  /** The collapse is the identity exactly on texts without a space-like run, so a
      second collapse changes nothing. */
  lemma CollapseFixedPoint(s: string)
    ensures Collapse(s) == s <==> NoSpaceRun(s)
    ensures Collapse(Collapse(s)) == Collapse(s)
  {
    CollapseFromHasNoRun(s, 0);
    if NoSpaceRun(s) {
      CollapseCopiesKept(s, 0, |s|);
    }
    var r := Collapse(s);
    CollapseCopiesKept(r, 0, |r|);
  }

  /** The collapse of `s[i..]` ends like `s` does: a space-like run at the end survives as one character. */
  lemma {:induction false} CollapseLastChar(s: string, i: nat)
    requires i < |s|
    ensures Kept(s, i) ==> |CollapseFrom(s, i)| > 0 && CollapseFrom(s, i)[0] == s[i]
    ensures CollapseFrom(s, i) == [] ==> !Kept(s, i) && IsSpaceLike(s[|s| - 1])
    ensures |CollapseFrom(s, i)| > 0 ==>
              (IsSpaceLike(CollapseFrom(s, i)[|CollapseFrom(s, i)| - 1]) <==> IsSpaceLike(s[|s| - 1]))
    decreases |s| - i
  {
    if i + 1 < |s| {
      CollapseLastChar(s, i + 1);
    } else {
      assert CollapseFrom(s, i + 1) == [];
    }
  }

  // ---------------------------------------------------------------------------
  // ellipsis
  // ---------------------------------------------------------------------------

  /** HORIZONTAL ELLIPSIS, U+2026. */
  const EllipsisChar: char := '\U{2026}'
  /** `. . . ` not followed by a dot: the inner spaces become no-break, the last one stays. */
  const NbEllipsis: string := ['.', NbChar, '.', NbChar, '.', ' ']
  /** `. . . ` followed by a dot: all three spaces become no-break. */
  const FullNbEllipsis: string := ['.', NbChar, '.', NbChar, '.', NbChar]

  predicate TripleDotAt(s: string, i: nat) {
    i + 3 <= |s| && s[i] == '.' && s[i + 1] == '.' && s[i + 2] == '.'
  }

  predicate SpacedDotsAt(s: string, i: nat) {
    i + 6 <= |s| && s[i] == '.' && s[i + 1] == ' ' && s[i + 2] == '.'
    && s[i + 3] == ' ' && s[i + 4] == '.' && s[i + 5] == ' '
  }

  /** The ellipsis prefilter `\.\.\.|\. \. \. ` matches at `i`. */
  predicate EllipsisTriggerAt(s: string, i: nat) {
    TripleDotAt(s, i) || SpacedDotsAt(s, i)
  }

  function FindEllipsisTrigger(s: string, i: nat): (r: Option<nat>)
    requires i <= |s|
    ensures r.Some? ==> i <= r.value < |s| && EllipsisTriggerAt(s, r.value)
                        && forall k: nat :: i <= k < r.value ==> !EllipsisTriggerAt(s, k)
    ensures r.None? ==> forall k: nat :: i <= k ==> !EllipsisTriggerAt(s, k)
    decreases |s| - i
  {
    if i >= |s| then None
    else if EllipsisTriggerAt(s, i) then Some(i)
    else FindEllipsisTrigger(s, i + 1)
  }

  /** The greedy left-to-right scan of `ellipsis` from position `i`: `...` is tried
      before `. . . `, and an unmatched character is copied. */
  function EllipsisFrom(s: string, i: nat): string
    requires i <= |s|
    decreases |s| - i
  {
    if i == |s| then []
    else if TripleDotAt(s, i) then [EllipsisChar] + EllipsisFrom(s, i + 3)
    else if SpacedDotsAt(s, i) then
      (if i + 6 == |s| || s[i + 6] != '.' then NbEllipsis else FullNbEllipsis) + EllipsisFrom(s, i + 6)
    else [s[i]] + EllipsisFrom(s, i + 1)
  }

  /** `ellipsis`: untouched without a trigger, else the prefix and the scan from the trigger. */
  function Ellipsis(s: string): (r: string)
    ensures |r| <= |s|
    ensures (forall k: nat :: !EllipsisTriggerAt(s, k)) ==> r == s
  {
    match FindEllipsisTrigger(s, 0)
    case None => s
    case Some(first) =>
      EllipsisFromLength(s, first);
      s[..first] + EllipsisFrom(s, first)
  }

  lemma {:induction false} EllipsisFromLength(s: string, i: nat)
    requires i <= |s|
    ensures |EllipsisFrom(s, i)| <= |s| - i
    decreases |s| - i
  {
    if i < |s| {
      if TripleDotAt(s, i) {
        EllipsisFromLength(s, i + 3);
      } else if SpacedDotsAt(s, i) {
        EllipsisFromLength(s, i + 6);
      } else {
        EllipsisFromLength(s, i + 1);
      }
    }
  }

  /** Without a trigger at `i`, the scan copies `s[i]`. */
  lemma EllipsisFromCopy(s: string, i: nat)
    requires i < |s| && !EllipsisTriggerAt(s, i)
    ensures EllipsisFrom(s, i) == [s[i]] + EllipsisFrom(s, i + 1)
  {
  }

  lemma {:induction false} EllipsisCopiesUntriggered(s: string, i: nat, j: nat)
    requires i <= j <= |s|
    requires forall k: nat :: i <= k < j ==> !EllipsisTriggerAt(s, k)
    ensures EllipsisFrom(s, i) == s[i..j] + EllipsisFrom(s, j)
    decreases j - i
  {
    if i < j {
      EllipsisFromCopy(s, i);
      EllipsisCopiesUntriggered(s, i + 1, j);
      CopyStep(s, i, j, EllipsisFrom(s, i), EllipsisFrom(s, i + 1), EllipsisFrom(s, j));
    }
  }

  /** Starting the scan at the prefilter match is the same as scanning the whole text. */
  lemma EllipsisScan(s: string)
    ensures Ellipsis(s) == EllipsisFrom(s, 0)
  {
    match FindEllipsisTrigger(s, 0)
    case None =>
      EllipsisCopiesUntriggered(s, 0, |s|);
      assert s[0..|s|] == s;
    case Some(first) =>
      EllipsisCopiesUntriggered(s, 0, first);
  }

  /** Undoes the ellipsis pass: the ellipsis character back to three dots, no-break spaces back to spaces. */
  function RestoreDots(s: string): string {
    if |s| == 0 then []
    else (if s[0] == EllipsisChar then "..." else if s[0] == NbChar then " " else [s[0]])
         + RestoreDots(s[1..])
  }

  lemma {:induction false} RestoreDotsAppend(a: string, b: string)
    ensures RestoreDots(a + b) == RestoreDots(a) + RestoreDots(b)
    decreases |a|
  {
    if |a| > 0 {
      assert (a + b)[1..] == a[1..] + b;
      RestoreDotsAppend(a[1..], b);
    } else {
      assert a + b == b;
    }
  }

  /** Both spaced-dot replacements restore to `. . . `. */
  lemma RestoreSpacedDots(x: char)
    requires x == ' ' || x == NbChar
    ensures RestoreDots(['.', NbChar, '.', NbChar, '.', x]) == ". . . "
  {
    var b: string := ['.', NbChar, '.', NbChar, '.', x];
    assert RestoreDots(b[5..]) == " " by { assert b[5..][1..] == []; }
    assert RestoreDots(b[4..]) == ". " by { assert b[4..][1..] == b[5..]; }
    assert RestoreDots(b[3..]) == " . " by { assert b[3..][1..] == b[4..]; }
    assert RestoreDots(b[2..]) == ". . " by { assert b[2..][1..] == b[3..]; }
    assert RestoreDots(b[1..]) == " . . " by { assert b[1..][1..] == b[2..]; }
  }

  /** The first step of the ellipsis scan from `i`, and what restoring it gives. */
  lemma EllipsisUndoHead(s: string, i: nat) returns (n: nat, head: string)
    requires i < |s| && s[i] != EllipsisChar && s[i] != NbChar
    ensures 1 <= n && i + n <= |s|
    ensures EllipsisFrom(s, i) == head + EllipsisFrom(s, i + n)
    ensures RestoreDots(head) == s[i..i + n]
  {
    if TripleDotAt(s, i) {
      n, head := 3, [EllipsisChar];
      assert RestoreDots(head) == "..." by { assert head[1..] == []; }
      assert s[i..i + 3] == "...";
    } else if SpacedDotsAt(s, i) {
      n := 6;
      head := if i + 6 == |s| || s[i + 6] != '.' then NbEllipsis else FullNbEllipsis;
      RestoreSpacedDots(head[5]);
      assert head == ['.', NbChar, '.', NbChar, '.', head[5]];
      assert s[i..i + 6] == ". . . ";
    } else {
      n, head := 1, [s[i]];
      assert RestoreDots(head) == [s[i]] by { assert head[1..] == []; }
      assert s[i..i + 1] == [s[i]];
    }
  }

  /** No character that the ellipsis pass produces occurs in `s`. */
  predicate NoEllipsisOutput(s: string) {
    forall k :: 0 <= k < |s| ==> s[k] != EllipsisChar && s[k] != NbChar
  }

  lemma {:induction false} EllipsisFromRoundTrip(s: string, i: nat)
    requires i <= |s| && NoEllipsisOutput(s)
    ensures RestoreDots(EllipsisFrom(s, i)) == s[i..]
    decreases |s| - i
  {
    if i < |s| {
      assert s[i] != EllipsisChar && s[i] != NbChar;
      var n, head := EllipsisUndoHead(s, i);
      EllipsisFromRoundTrip(s, i + n);
      RestoreStep(s, i, n, EllipsisFrom(s, i), head, EllipsisFrom(s, i + n));
    }
  }

  lemma RestoreStep(s: string, i: nat, n: nat, whole: string, head: string, rest: string)
    requires i + n <= |s| && whole == head + rest
    requires RestoreDots(head) == s[i..i + n] && RestoreDots(rest) == s[i + n..]
    ensures RestoreDots(whole) == s[i..]
  {
    RestoreDotsAppend(head, rest);
    UndoStep(s, i, n, RestoreDots(whole), RestoreDots(head), RestoreDots(rest));
  }

  /** The ellipsis pass only rewrites dot patterns: on a text without ellipsis characters
      or no-break spaces, restoring the dots gives the input back. */
  lemma EllipsisRoundTrip(s: string)
    requires NoEllipsisOutput(s)
    ensures RestoreDots(Ellipsis(s)) == s
  {
    EllipsisScan(s);
    EllipsisFromRoundTrip(s, 0);
    assert s[0..] == s;
  }

  /** The characters a trigger is made of. */
  predicate DotOrSpace(c: char) {
    c == '.' || c == ' '
  }

  /** Every replacement starts with `…` or with `.` and a no-break space. */
  lemma EllipsisFromStart(s: string, i: nat)
    requires i < |s|
    ensures TripleDotAt(s, i) ==> EllipsisFrom(s, i)[0] == EllipsisChar
    ensures !TripleDotAt(s, i) && SpacedDotsAt(s, i) ==> EllipsisFrom(s, i)[0] == '.' && EllipsisFrom(s, i)[1] == NbChar
  {
  }

  /** A run of dots and plain spaces at the start of the scan's output was copied
      from the input: every replacement starts with `…` or with `.` and a no-break
      space. */
  lemma {:induction false} EllipsisFromPrefix(s: string, i: nat, n: nat)
    requires i <= |s| && n <= |EllipsisFrom(s, i)|
    requires forall k :: 0 <= k < n ==> DotOrSpace(EllipsisFrom(s, i)[k])
    ensures i + n <= |s| && forall k :: 0 <= k < n ==> EllipsisFrom(s, i)[k] == s[i + k]
    decreases n
  {
    if n > 0 {
      var r := EllipsisFrom(s, i);
      EllipsisFromStart(s, i);
      if !TripleDotAt(s, i) && !SpacedDotsAt(s, i) {
        var rest := EllipsisFrom(s, i + 1);
        assert r == [s[i]] + rest;
        forall k | 0 <= k < n - 1
          ensures DotOrSpace(rest[k])
        {
          assert rest[k] == r[k + 1];
        }
        EllipsisFromPrefix(s, i + 1, n - 1);
        forall k | 0 <= k < n
          ensures r[k] == s[i + k]
        {
          if k > 0 {
            assert r[k] == rest[k - 1];
          }
        }
      }
    }
  }

  /** The scan's output starts with no trigger: one there would have been copied
      from a trigger of the input, which the scan replaces. */
  lemma EllipsisFromHead(s: string, i: nat)
    requires i <= |s|
    ensures !EllipsisTriggerAt(EllipsisFrom(s, i), 0)
  {
    var r := EllipsisFrom(s, i);
    if EllipsisTriggerAt(r, 0) {
      EllipsisFromPrefix(s, i, if TripleDotAt(r, 0) then 3 else 6);
      assert false;
    }
  }

  /** The scan's output starts with a dot only where the input does. */
  lemma EllipsisFromDot(s: string, i: nat)
    requires i <= |s|
    ensures |EllipsisFrom(s, i)| > 0 && EllipsisFrom(s, i)[0] == '.' ==> i < |s| && s[i] == '.'
  {
    var r := EllipsisFrom(s, i);
    if |r| > 0 && r[0] == '.' {
      EllipsisFromPrefix(s, i, 1);
    }
  }

  /** No trigger is left anywhere in the scan's output. */
  lemma {:induction false} EllipsisFromNoTrigger(s: string, i: nat)
    requires i <= |s|
    ensures forall k: nat :: !EllipsisTriggerAt(EllipsisFrom(s, i), k)
    decreases |s| - i
  {
    if i < |s| {
      var r := EllipsisFrom(s, i);
      var n := if TripleDotAt(s, i) then 3 else if SpacedDotsAt(s, i) then 6 else 1;
      var rest := EllipsisFrom(s, i + n);
      var head := r[..|r| - |rest|];
      EllipsisFromNoTrigger(s, i + n);
      EllipsisFromHead(s, i);
      EllipsisFromDot(s, i + n);
      forall k: nat
        ensures !EllipsisTriggerAt(r, k)
      {
        if k >= |head| {
          WindowShift(head, rest, k);
        } else if k > 0 {
          EllipsisHeadTail(r, head, rest, k);
        }
      }
    }
  }

  /** A window beyond the replaced head is a window of the rest. */
  lemma WindowShift(head: string, rest: string, k: nat)
    requires |head| <= k
    ensures EllipsisTriggerAt(head + rest, k) ==> EllipsisTriggerAt(rest, k - |head|)
  {
    var r := head + rest;
    var j := k - |head|;
    if TripleDotAt(r, k) {
      assert r[k] == rest[j] && r[k + 1] == rest[j + 1] && r[k + 2] == rest[j + 2];
    }
    if SpacedDotsAt(r, k) {
      assert r[k] == rest[j] && r[k + 1] == rest[j + 1] && r[k + 2] == rest[j + 2];
      assert r[k + 3] == rest[j + 3] && r[k + 4] == rest[j + 4] && r[k + 5] == rest[j + 5];
    }
  }

  /** A window starting inside a replacement, past its first character. */
  lemma EllipsisHeadTail(r: string, head: string, rest: string, k: nat)
    requires r == head + rest && 0 < k < |head|
    requires head == NbEllipsis || head == FullNbEllipsis
    requires head == NbEllipsis && |rest| > 0 ==> rest[0] != '.'
    ensures !EllipsisTriggerAt(r, k)
  {
  }

  /** The ellipsis pass leaves no `...` and no `. . . ` behind, so a second pass
      changes nothing. */
  lemma EllipsisNoTriggerLeft(s: string)
    ensures forall k: nat :: !EllipsisTriggerAt(Ellipsis(s), k)
    ensures Ellipsis(Ellipsis(s)) == Ellipsis(s)
  {
    EllipsisScan(s);
    EllipsisFromNoTrigger(s, 0);
  }

  // ---------------------------------------------------------------------------
  // dashes
  // ---------------------------------------------------------------------------

  /** EN DASH, U+2013. */
  const EnDash: char := '\U{2013}'
  /** EM DASH, U+2014. */
  const EmDash: char := '\U{2014}'

  /** The dash prefilter `\x2D\x2D` matches at `i`. */
  predicate DoubleDashAt(s: string, i: nat) {
    i + 2 <= |s| && s[i] == '-' && s[i + 1] == '-'
  }

  function FindDoubleDash(s: string, i: nat): (r: Option<nat>)
    requires i <= |s|
    ensures r.Some? ==> i <= r.value < |s| && DoubleDashAt(s, r.value)
                        && forall k: nat :: i <= k < r.value ==> !DoubleDashAt(s, k)
    ensures r.None? ==> forall k: nat :: i <= k ==> !DoubleDashAt(s, k)
    decreases |s| - i
  {
    if i >= |s| then None
    else if DoubleDashAt(s, i) then Some(i)
    else FindDoubleDash(s, i + 1)
  }

  /** The scan of `dashes`: `---` is tried before `--`. */
  function DashesFrom(s: string, i: nat): string
    requires i <= |s|
    decreases |s| - i
  {
    if i == |s| then []
    else if DoubleDashAt(s, i) then
      if i + 2 < |s| && s[i + 2] == '-' then [EmDash] + DashesFrom(s, i + 3)
      else [EnDash] + DashesFrom(s, i + 2)
    else [s[i]] + DashesFrom(s, i + 1)
  }

  /** `dashes`: untouched without `--`, else the prefix and the scan from the first `--`. */
  function Dashes(s: string): (r: string)
    ensures (forall k: nat :: !DoubleDashAt(s, k)) ==> r == s
  {
    match FindDoubleDash(s, 0)
    case None => s
    case Some(first) => s[..first] + DashesFrom(s, first)
  }

  /** Without a trigger at `i`, the scan copies `s[i]`. */
  lemma DashesFromCopy(s: string, i: nat)
    requires i < |s| && !DoubleDashAt(s, i)
    ensures DashesFrom(s, i) == [s[i]] + DashesFrom(s, i + 1)
  {
  }

  lemma {:induction false} DashesCopiesUntriggered(s: string, i: nat, j: nat)
    requires i <= j <= |s|
    requires forall k: nat :: i <= k < j ==> !DoubleDashAt(s, k)
    ensures DashesFrom(s, i) == s[i..j] + DashesFrom(s, j)
    decreases j - i
  {
    if i < j {
      DashesFromCopy(s, i);
      DashesCopiesUntriggered(s, i + 1, j);
      CopyStep(s, i, j, DashesFrom(s, i), DashesFrom(s, i + 1), DashesFrom(s, j));
    }
  }

  /** Starting the scan at the prefilter match is the same as scanning the whole text. */
  lemma DashesScan(s: string)
    ensures Dashes(s) == DashesFrom(s, 0)
  {
    match FindDoubleDash(s, 0)
    case None =>
      DashesCopiesUntriggered(s, 0, |s|);
      assert s[0..|s|] == s;
    case Some(first) =>
      DashesCopiesUntriggered(s, 0, first);
  }

  /** The scan from `i` leaves no `--` behind, and starts with `-` only when `s[i]` is a lone dash. */
  lemma {:induction false} DashesFromNoDoubleDash(s: string, i: nat)
    requires i <= |s|
    ensures forall k: nat :: !DoubleDashAt(DashesFrom(s, i), k)
    ensures |DashesFrom(s, i)| > 0 && DashesFrom(s, i)[0] == '-' ==> s[i] == '-' && !DoubleDashAt(s, i)
    decreases |s| - i
  {
    if i < |s| {
      var next := if DoubleDashAt(s, i) then (if i + 2 < |s| && s[i + 2] == '-' then i + 3 else i + 2) else i + 1;
      DashesFromNoDoubleDash(s, next);
      var r := DashesFrom(s, i);
      var rest := DashesFrom(s, next);
      assert r == [r[0]] + rest;
      forall k: nat
        ensures !DoubleDashAt(r, k)
      {
        if k > 0 {
          assert !DoubleDashAt(rest, k - 1);
        }
      }
    }
  }

  /** Undoes the dash ligatures: en dash back to `--`, em dash back to `---`. */
  function Undash(s: string): string {
    if |s| == 0 then []
    else (if s[0] == EnDash then "--" else if s[0] == EmDash then "---" else [s[0]]) + Undash(s[1..])
  }

  lemma {:induction false} UndashAppend(a: string, b: string)
    ensures Undash(a + b) == Undash(a) + Undash(b)
    decreases |a|
  {
    if |a| > 0 {
      assert (a + b)[1..] == a[1..] + b;
      UndashAppend(a[1..], b);
    } else {
      assert a + b == b;
    }
  }

  /** The first step of the dash scan from `i`, and what undoing it gives. */
  lemma DashesUndoHead(s: string, i: nat) returns (n: nat, head: string)
    requires i < |s| && s[i] != EnDash && s[i] != EmDash
    ensures 1 <= n && i + n <= |s|
    ensures DashesFrom(s, i) == head + DashesFrom(s, i + n)
    ensures Undash(head) == s[i..i + n]
  {
    if DoubleDashAt(s, i) && i + 2 < |s| && s[i + 2] == '-' {
      n, head := 3, [EmDash];
      assert s[i..i + 3] == "---";
    } else if DoubleDashAt(s, i) {
      n, head := 2, [EnDash];
      assert s[i..i + 2] == "--";
    } else {
      n, head := 1, [s[i]];
      assert s[i..i + 1] == [s[i]];
    }
    UndashOne(head[0]);
  }

  lemma UndashOne(c: char)
    ensures Undash([c]) == if c == EnDash then "--" else if c == EmDash then "---" else [c]
  {
    assert [c][1..] == [];
  }

  /** No dash that the dash pass produces occurs in `s`. */
  predicate NoDashOutput(s: string) {
    forall k :: 0 <= k < |s| ==> s[k] != EnDash && s[k] != EmDash
  }

  lemma {:induction false} DashesFromRoundTrip(s: string, i: nat)
    requires i <= |s| && NoDashOutput(s)
    ensures Undash(DashesFrom(s, i)) == s[i..]
    decreases |s| - i
  {
    if i < |s| {
      assert s[i] != EnDash && s[i] != EmDash;
      var n, head := DashesUndoHead(s, i);
      DashesFromRoundTrip(s, i + n);
      UndashAppend(head, DashesFrom(s, i + n));
      UndoStep(s, i, n, Undash(DashesFrom(s, i)), Undash(head), Undash(DashesFrom(s, i + n)));
    }
  }

  predicate DashLike(c: char) {
    c == '-' || c == EnDash || c == EmDash
  }

  /** The runs of `-` are read left to right, longest ligature first: no `-` or en
      dash is followed by a dash of any kind, since `---` would have been taken
      before `--`, and `--` before `-`. With `Undash`, this fixes the result. */
  predicate LongestFirst(r: string) {
    forall k :: 0 <= k < |r| - 1 && (r[k] == '-' || r[k] == EnDash) ==> !DashLike(r[k + 1])
  }

  lemma {:induction false} DashesFromLongestFirst(s: string, i: nat)
    requires i <= |s| && NoDashOutput(s)
    ensures LongestFirst(DashesFrom(s, i))
    ensures |DashesFrom(s, i)| > 0 && DashLike(DashesFrom(s, i)[0]) ==> s[i] == '-'
    decreases |s| - i
  {
    if i < |s| {
      var next := if DoubleDashAt(s, i) then (if i + 2 < |s| && s[i + 2] == '-' then i + 3 else i + 2) else i + 1;
      DashesFromLongestFirst(s, next);
      var r := DashesFrom(s, i);
      var rest := DashesFrom(s, next);
      assert r == [r[0]] + rest;
      assert s[i] != EnDash && s[i] != EmDash;
      forall k | 0 <= k < |r| - 1 && (r[k] == '-' || r[k] == EnDash)
        ensures !DashLike(r[k + 1])
      {
        if k > 0 {
          assert rest[k - 1] == r[k];
        }
      }
    }
  }

  /** Dash ligatures: no `--` survives, so a second pass changes nothing; and on a
      text without en or em dashes, undoing the ligatures gives the input back and
      the longest ligature was always taken first. */
  lemma DashesProperties(s: string)
    ensures forall k: nat :: !DoubleDashAt(Dashes(s), k)
    ensures Dashes(Dashes(s)) == Dashes(s)
    ensures NoDashOutput(s) ==> Undash(Dashes(s)) == s && LongestFirst(Dashes(s))
  {
    DashesScan(s);
    DashesFromNoDoubleDash(s, 0);
    if NoDashOutput(s) {
      DashesFromRoundTrip(s, 0);
      DashesFromLongestFirst(s, 0);
      assert s[0..] == s;
    }
  }

  // ---------------------------------------------------------------------------
  // guillemets
  // ---------------------------------------------------------------------------

  const OpeningGuillemet: char := '\U{00AB}'
  const ClosingGuillemet: char := '\U{00BB}'

  predicate PairAt(s: string, i: nat, c: char) {
    i + 2 <= |s| && s[i] == c && s[i + 1] == c
  }

  /** The guillemet prefilter `<<|>>` matches at `i`. */
  predicate AnglePairAt(s: string, i: nat) {
    PairAt(s, i, '<') || PairAt(s, i, '>')
  }

  function FindAnglePair(s: string, i: nat): (r: Option<nat>)
    requires i <= |s|
    ensures r.Some? ==> i <= r.value < |s| && AnglePairAt(s, r.value)
                        && forall k: nat :: i <= k < r.value ==> !AnglePairAt(s, k)
    ensures r.None? ==> forall k: nat :: i <= k ==> !AnglePairAt(s, k)
    decreases |s| - i
  {
    if i >= |s| then None
    else if AnglePairAt(s, i) then Some(i)
    else FindAnglePair(s, i + 1)
  }

  /** The scan of `guillemets`: `<<` to an opening and `>>` to a closing guillemet. */
  function GuillemetsFrom(s: string, i: nat): string
    requires i <= |s|
    decreases |s| - i
  {
    if i == |s| then []
    else if PairAt(s, i, '<') then [OpeningGuillemet] + GuillemetsFrom(s, i + 2)
    else if PairAt(s, i, '>') then [ClosingGuillemet] + GuillemetsFrom(s, i + 2)
    else [s[i]] + GuillemetsFrom(s, i + 1)
  }

  /** `guillemets`: untouched without `<<` or `>>`, else the prefix and the scan from the first one. */
  function Guillemets(s: string): (r: string)
    ensures (forall k: nat :: !AnglePairAt(s, k)) ==> r == s
  {
    match FindAnglePair(s, 0)
    case None => s
    case Some(first) => s[..first] + GuillemetsFrom(s, first)
  }

  /** Without a trigger at `i`, the scan copies `s[i]`. */
  lemma GuillemetsFromCopy(s: string, i: nat)
    requires i < |s| && !AnglePairAt(s, i)
    ensures GuillemetsFrom(s, i) == [s[i]] + GuillemetsFrom(s, i + 1)
  {
  }

  lemma {:induction false} GuillemetsCopiesUntriggered(s: string, i: nat, j: nat)
    requires i <= j <= |s|
    requires forall k: nat :: i <= k < j ==> !AnglePairAt(s, k)
    ensures GuillemetsFrom(s, i) == s[i..j] + GuillemetsFrom(s, j)
    decreases j - i
  {
    if i < j {
      GuillemetsFromCopy(s, i);
      GuillemetsCopiesUntriggered(s, i + 1, j);
      CopyStep(s, i, j, GuillemetsFrom(s, i), GuillemetsFrom(s, i + 1), GuillemetsFrom(s, j));
    }
  }

  /** Starting the scan at the prefilter match is the same as scanning the whole text. */
  lemma GuillemetsScan(s: string)
    ensures Guillemets(s) == GuillemetsFrom(s, 0)
  {
    match FindAnglePair(s, 0)
    case None =>
      GuillemetsCopiesUntriggered(s, 0, |s|);
      assert s[0..|s|] == s;
    case Some(first) =>
      GuillemetsCopiesUntriggered(s, 0, first);
  }

  lemma {:induction false} GuillemetsFromNoPair(s: string, i: nat)
    requires i <= |s|
    ensures forall k: nat :: !AnglePairAt(GuillemetsFrom(s, i), k)
    ensures |GuillemetsFrom(s, i)| > 0 && (GuillemetsFrom(s, i)[0] == '<' || GuillemetsFrom(s, i)[0] == '>')
            ==> s[i] == GuillemetsFrom(s, i)[0] && !AnglePairAt(s, i)
    decreases |s| - i
  {
    if i < |s| {
      var next := if AnglePairAt(s, i) then i + 2 else i + 1;
      GuillemetsFromNoPair(s, next);
      var r := GuillemetsFrom(s, i);
      var rest := GuillemetsFrom(s, next);
      assert r == [r[0]] + rest;
      forall k: nat
        ensures !AnglePairAt(r, k)
      {
        if k > 0 {
          assert !AnglePairAt(rest, k - 1);
        }
      }
    }
  }

  /** Undoes the guillemet ligatures. */
  function Unguillemet(s: string): string {
    if |s| == 0 then []
    else (if s[0] == OpeningGuillemet then "<<" else if s[0] == ClosingGuillemet then ">>" else [s[0]])
         + Unguillemet(s[1..])
  }

  lemma {:induction false} UnguillemetAppend(a: string, b: string)
    ensures Unguillemet(a + b) == Unguillemet(a) + Unguillemet(b)
    decreases |a|
  {
    if |a| > 0 {
      assert (a + b)[1..] == a[1..] + b;
      UnguillemetAppend(a[1..], b);
    } else {
      assert a + b == b;
    }
  }

  /** The first step of the guillemet scan from `i`, and what undoing it gives. */
  lemma GuillemetsUndoHead(s: string, i: nat) returns (n: nat, head: string)
    requires i < |s| && s[i] != OpeningGuillemet && s[i] != ClosingGuillemet
    ensures 1 <= n && i + n <= |s|
    ensures GuillemetsFrom(s, i) == head + GuillemetsFrom(s, i + n)
    ensures Unguillemet(head) == s[i..i + n]
  {
    if PairAt(s, i, '<') {
      n, head := 2, [OpeningGuillemet];
      assert Unguillemet(head) == "<<" by { assert head[1..] == []; }
      assert s[i..i + 2] == "<<";
    } else if PairAt(s, i, '>') {
      n, head := 2, [ClosingGuillemet];
      assert Unguillemet(head) == ">>" by { assert head[1..] == []; }
      assert s[i..i + 2] == ">>";
    } else {
      n, head := 1, [s[i]];
      assert Unguillemet(head) == [s[i]] by { assert head[1..] == []; }
      assert s[i..i + 1] == [s[i]];
    }
  }

  /** No guillemet occurs in `s`. */
  predicate NoGuillemetOutput(s: string) {
    forall k :: 0 <= k < |s| ==> s[k] != OpeningGuillemet && s[k] != ClosingGuillemet
  }

  lemma {:induction false} GuillemetsFromRoundTrip(s: string, i: nat)
    requires i <= |s| && NoGuillemetOutput(s)
    ensures Unguillemet(GuillemetsFrom(s, i)) == s[i..]
    decreases |s| - i
  {
    if i < |s| {
      assert s[i] != OpeningGuillemet && s[i] != ClosingGuillemet;
      var n, head := GuillemetsUndoHead(s, i);
      GuillemetsFromRoundTrip(s, i + n);
      UnguillemetStep(s, i, n, GuillemetsFrom(s, i), head, GuillemetsFrom(s, i + n));
    }
  }

  lemma UnguillemetStep(s: string, i: nat, n: nat, whole: string, head: string, rest: string)
    requires i + n <= |s| && whole == head + rest
    requires Unguillemet(head) == s[i..i + n] && Unguillemet(rest) == s[i + n..]
    ensures Unguillemet(whole) == s[i..]
  {
    UnguillemetAppend(head, rest);
    UndoStep(s, i, n, Unguillemet(whole), Unguillemet(head), Unguillemet(rest));
  }

  /** Guillemet ligatures: no `<<` or `>>` survives, so a second pass changes nothing;
      and on a text without guillemets, undoing the ligatures gives the input back. */
  lemma GuillemetsProperties(s: string)
    ensures forall k: nat :: !AnglePairAt(Guillemets(s), k)
    ensures Guillemets(Guillemets(s)) == Guillemets(s)
    ensures NoGuillemetOutput(s) ==> Unguillemet(Guillemets(s)) == s
  {
    GuillemetsScan(s);
    GuillemetsFromNoPair(s, 0);
    if NoGuillemetOutput(s) {
      GuillemetsFromRoundTrip(s, 0);
      assert s[0..] == s;
    }
  }
}
