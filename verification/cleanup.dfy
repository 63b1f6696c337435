/**
  The ordered text transforms applied to a non-academic affiliation before it
  is reported (src/fetch_papers.py:410-444). Each `re.sub` call of the source
  is modelled as a scanning function that follows Python's leftmost,
  non-overlapping replacement with greedy backtracking for its particular
  pattern; the pipeline's input is already lower-cased.
*/
module Cleanup {
  import opened Base
  import opened Text

  /** Organisational-unit phrases, each deleted together with the whitespace after it. */
  const UnitPhrases: seq<Phrase> :=
    ["department of", "division of", "laboratory of", "unit of", "section of"]

  /** Locality phrases deleted wherever they occur. */
  const LocalityPhrases: seq<Phrase> := ["amsterdam, the netherlands"]

  /** Longest cleaned text reported before truncation. */
  const MaxLength: nat := 200

  /** Marker appended to a truncated text. */
  const Ellipsis: string := "..."

  // ---------------------------------------------------------------------------
  // a. `re.sub(r",\s*\d+\s+[A-Z][a-z]+(\s+[A-Z][a-z]+)*\s*$", "", s)`

  /** States of a recogniser for `,\s*\d+\s+[A-Z][a-z]+(\s+[A-Z][a-z]+)*\s*`. */
  datatype AddressState =
    | ExpectComma   // nothing read yet
    | CommaSpaces   // after the comma, inside `\s*`
    | Digits        // inside `\d+`
    | DigitSpaces   // inside the `\s+` after the number
    | Capital       // read `[A-Z]`, at least one `[a-z]` must follow
    | Lowers        // inside `[a-z]+`; accepting
    | WordSpaces    // inside `\s+` or the final `\s*`; accepting
    | Dead

  function AddressStep(st: AddressState, c: char): AddressState {
    match st
    case ExpectComma => if c == ',' then CommaSpaces else Dead
    case CommaSpaces => if IsSpace(c) then CommaSpaces else if IsDigit(c) then Digits else Dead
    case Digits => if IsDigit(c) then Digits else if IsSpace(c) then DigitSpaces else Dead
    case DigitSpaces => if IsSpace(c) then DigitSpaces else if IsUpper(c) then Capital else Dead
    case Capital => if IsLowerAlpha(c) then Lowers else Dead
    case Lowers => if IsLowerAlpha(c) then Lowers else if IsSpace(c) then WordSpaces else Dead
    case WordSpaces => if IsSpace(c) then WordSpaces else if IsUpper(c) then Capital else Dead
    case Dead => Dead
  }

  /** The recogniser, started in `st` at position `i`, accepts `s[i..]`. */
  predicate AddressAccepts(s: string, i: nat, st: AddressState)
    requires i <= |s|
    decreases |s| - i
  {
    if i == |s| then st == Lowers || st == WordSpaces
    else AddressAccepts(s, i + 1, AddressStep(st, s[i]))
  }

  /** `s[i..]`, read to its end, is a postal-address fragment. */
  predicate AddressTail(s: string, i: nat)
    requires i <= |s|
  {
    AddressAccepts(s, i, ExpectComma)
  }

  /** The leftmost position at or after `i` where an address fragment begins, or `|s|`. */
  function AddressStart(s: string, i: nat): (k: nat)
    requires i <= |s|
    ensures i <= k <= |s|
    ensures k < |s| ==> AddressTail(s, k)
    ensures forall j :: i <= j < k ==> !AddressTail(s, j)
    decreases |s| - i
  {
    if i == |s| then |s|
    else if AddressTail(s, i) then i
    else AddressStart(s, i + 1)
  }

  /** Cut the string at the leftmost trailing postal-address fragment, if any. */
  function StripAddress(s: string): (r: string)
    ensures |r| <= |s| && r == s[..|r|]
    ensures |r| < |s| ==> AddressTail(s, |r|)
    ensures forall j :: 0 <= j < |r| ==> !AddressTail(s, j)
    ensures CharsFrom(r, s, {})
  {
    CharsFromSlice(s, 0, AddressStart(s, 0));
    s[..AddressStart(s, 0)]
  }

  /** Holds when no ASCII capital occurs in `s[i..]`. */
  predicate NoUpperFrom(s: string, i: nat) {
    forall j :: i <= j < |s| ==> !IsUpper(s[j])
  }

  lemma {:induction false} DeadRejects(s: string, i: nat)
    requires i <= |s|
    ensures !AddressAccepts(s, i, Dead)
    decreases |s| - i
  {
    if i < |s| {
      DeadRejects(s, i + 1);
    }
  }

  /** Before the first capital is read, the recogniser cannot accept. */
  lemma {:induction false} AcceptsNeedsCapital(s: string, i: nat, st: AddressState)
    requires i <= |s| && NoUpperFrom(s, i)
    requires st == ExpectComma || st == CommaSpaces || st == Digits || st == DigitSpaces
    ensures !AddressAccepts(s, i, st)
    decreases |s| - i
  {
    if i < |s| {
      var next := AddressStep(st, s[i]);
      if next == Dead {
        DeadRejects(s, i + 1);
      } else {
        AcceptsNeedsCapital(s, i + 1, next);
      }
    }
  }

  /** Every address fragment contains an ASCII capital letter. */
  lemma AddressTailHasCapital(s: string, i: nat)
    requires i <= |s| && AddressTail(s, i)
    ensures exists j :: i <= j < |s| && IsUpper(s[j])
  {
    if NoUpperFrom(s, i) {
      AcceptsNeedsCapital(s, i, ExpectComma);
    }
  }

  /** On text without capitals the address substitution never fires. */
  lemma StripAddressLowerCase(s: string)
    requires NoUpper(s)
    ensures StripAddress(s) == s
  {
    var k := AddressStart(s, 0);
    if k < |s| {
      AcceptsNeedsCapital(s, k, ExpectComma);
    }
  }

  // ---------------------------------------------------------------------------
  // b. `re.sub(r"[,.]+$", "", s)`; `$` also matches before a final newline.

  /** Where `$` matches last: before a final newline, otherwise at the end. */
  function LineEnd(s: string): (n: nat)
    ensures n <= |s|
  {
    if |s| > 0 && s[|s| - 1] == '\n' then |s| - 1 else |s|
  }

  /** `r` is `s` without the block `s[i..j]` of commas and periods, which is
      maximal on the left and ends where `$` matches. */
  predicate TrailingPunctCut(s: string, r: string, i: int, j: int) {
    && 0 <= i <= j <= |s|
    && r == s[..i] + s[j..]
    && (j == |s| - 1 <==> (|s| > 0 && s[|s| - 1] == '\n'))
    && (j == |s| || j == |s| - 1)
    && (forall k :: i <= k < j ==> In(s[k], Punct))
    && (i == 0 || !In(s[i - 1], Punct))
  }

  function StripTrailingPunct(s: string): (r: string)
    ensures exists i, j :: TrailingPunctCut(s, r, i, j)
    ensures CharsFrom(r, s, {})
  {
    var n := LineEnd(s);
    var b := RunStart(s, n, Punct);
    assert TrailingPunctCut(s, s[..b] + s[n..], b, n);
    CharsFromSlice(s, 0, b);
    CharsFromSlice(s, n, |s|);
    assert s[n..|s|] == s[n..];
    CharsFromConcat(s[..b], s[n..], s, {});
    s[..b] + s[n..]
  }

  // ---------------------------------------------------------------------------
  // c. `" ".join(s.split())`

  function CollapseWhitespace(s: string): (r: string)
    ensures Split(r) == Split(s)
    ensures CharsFrom(r, s, {' '})
  {
    var ws := Split(s);
    SplitWords(s);
    SplitJoin(ws);
    JoinChars(ws, s);
    Join(" ", ws)
  }

  /** The collapsed text has no outer whitespace and only single blanks inside. */
  lemma CollapseWhitespaceShape(s: string)
    ensures var r := CollapseWhitespace(s);
      && (r == [] <==> Split(s) == [])
      && (r != [] ==> !IsSpace(r[0]) && !IsSpace(r[|r| - 1]))
      && (forall i :: 0 <= i < |r| && IsSpace(r[i]) ==> r[i] == ' ' && 0 < i && !IsSpace(r[i - 1]))
  {
    SplitWords(s);
    JoinWordsShape(Split(s));
  }

  // ---------------------------------------------------------------------------
  // d, e. `re.sub("(p1|p2|...)" + tail, "", s, flags=re.IGNORECASE)`

  /** `p` matches at position `i` of `s`, ignoring ASCII case. */
  predicate MatchesFold(s: string, i: nat, p: string) {
    i + |p| <= |s| && Lower(s[i..i + |p|]) == Lower(p)
  }

  /** The first alternative (in pattern order) that matches at position `i`;
      `FirstMatchMeaning` states which one it is. */
  function FirstMatch(s: string, i: nat, phrases: seq<Phrase>, k: nat := 0): (m: Option<nat>)
    requires k <= |phrases|
    ensures m.Some? ==> k <= m.value < |phrases| && i + |phrases[m.value]| <= |s|
    decreases |phrases| - k
  {
    if k == |phrases| then None
    else if MatchesFold(s, i, phrases[k]) then Some(k)
    else FirstMatch(s, i, phrases, k + 1)
  }

  /** `FirstMatch` reports the first alternative from `k` on that matches at `i`,
      and none exactly when no such alternative matches there. */
  lemma {:induction false} FirstMatchMeaning(s: string, i: nat, phrases: seq<Phrase>, k: nat)
    requires k <= |phrases|
    ensures var m := FirstMatch(s, i, phrases, k);
      && (m.Some? ==> MatchesFold(s, i, phrases[m.value]) && forall q :: k <= q < m.value ==> !MatchesFold(s, i, phrases[q]))
      && (m.None? ==> forall q :: k <= q < |phrases| ==> !MatchesFold(s, i, phrases[q]))
    decreases |phrases| - k
  {
    if k < |phrases| && !MatchesFold(s, i, phrases[k]) {
      FirstMatchMeaning(s, i, phrases, k + 1);
    }
  }

  /** No alternative matches at any position of `s` from `i` on. */
  predicate NoPhraseFrom(s: string, i: nat, phrases: seq<Phrase>) {
    forall j, q :: i <= j < |s| && 0 <= q < |phrases| ==> !MatchesFold(s, j, phrases[q])
  }

  /** Where the scan resumes after a match ending at `next`: past the trailing
      whitespace when `eatSpace`. */
  function Resume(s: string, next: nat, eatSpace: bool): (j: nat)
    requires next <= |s|
    ensures next <= j <= |s|
    ensures eatSpace ==> j == RunEnd(s, next, Space)
    ensures !eatSpace ==> j == next
  {
    if eatSpace then RunEnd(s, next, Space) else next
  }

  /** Delete, from position `i` on, every leftmost non-overlapping occurrence of the
      alternatives; with `eatSpace` the whitespace after each occurrence goes too
      (a trailing `\s*`). */
  function EraseFrom(s: string, i: nat, phrases: seq<Phrase>, eatSpace: bool): (r: string)
    requires i <= |s|
    ensures |r| <= |s| - i
    decreases |s| - i
  {
    if i == |s| then []
    else
      match FirstMatch(s, i, phrases)
      case Some(k) => EraseFrom(s, Resume(s, i + |phrases[k]|, eatSpace), phrases, eatSpace)
      case None =>
        [s[i]] + EraseFrom(s, i + 1, phrases, eatSpace)
  }

  function Erase(s: string, phrases: seq<Phrase>, eatSpace: bool): (r: string)
    ensures |r| <= |s|
    ensures CharsFrom(r, s, {})
  {
    EraseFromChars(s, 0, phrases, eatSpace);
    EraseFrom(s, 0, phrases, eatSpace)
  }

  /** Deletion only keeps characters of its input. */
  lemma {:induction false} EraseFromChars(s: string, i: nat, phrases: seq<Phrase>, eatSpace: bool)
    requires i <= |s|
    ensures CharsFrom(EraseFrom(s, i, phrases, eatSpace), s, {})
    decreases |s| - i
  {
    if i < |s| {
      match FirstMatch(s, i, phrases)
      case Some(k) =>
        EraseFromChars(s, Resume(s, i + |phrases[k]|, eatSpace), phrases, eatSpace);
      case None =>
        EraseFromChars(s, i + 1, phrases, eatSpace);
        CharsFromSlice(s, i, i + 1);
        assert s[i..i + 1] == [s[i]];
        CharsFromConcat([s[i]], EraseFrom(s, i + 1, phrases, eatSpace), s, {});
    }
  }

  /** Text with no occurrence of any alternative passes through unchanged. */
  lemma EraseFromWithoutMatch(s: string, i: nat, phrases: seq<Phrase>, eatSpace: bool)
    requires i <= |s| && NoPhraseFrom(s, i, phrases)
    ensures EraseFrom(s, i, phrases, eatSpace) == s[i..]
  {
    forall k | i <= k < |s| ensures FirstMatch(s, k, phrases).None? {
      NoMatchHere(s, k, phrases);
    }
    EraseFromPrefix(s, i, |s|, phrases, eatSpace);
    assert s[i..|s|] == s[i..];
  }

  /** Where no alternative matches, deletion copies the text unchanged. */
  lemma {:induction false} EraseFromPrefix(s: string, j: nat, i: nat, phrases: seq<Phrase>, eatSpace: bool)
    requires j <= i <= |s|
    requires forall k :: j <= k < i ==> FirstMatch(s, k, phrases).None?
    ensures EraseFrom(s, j, phrases, eatSpace) == s[j..i] + EraseFrom(s, i, phrases, eatSpace)
    decreases i - j
  {
    if j < i {
      EraseFromSkip(s, j, phrases, eatSpace);
      EraseFromPrefix(s, j + 1, i, phrases, eatSpace);
      ConsSlice(s, j, i, EraseFrom(s, i, phrases, eatSpace));
    } else {
      assert s[j..i] == [];
    }
  }

  /** Where no alternative matches, `FirstMatch` reports none. */
  lemma NoMatchHere(s: string, j: nat, phrases: seq<Phrase>)
    requires forall q :: 0 <= q < |phrases| ==> !MatchesFold(s, j, phrases[q])
    ensures FirstMatch(s, j, phrases).None?
  {
    FirstMatchMeaning(s, j, phrases, 0);
  }

  /** A position where no alternative matches is copied. */
  lemma EraseFromSkip(s: string, j: nat, phrases: seq<Phrase>, eatSpace: bool)
    requires j < |s| && FirstMatch(s, j, phrases).None?
    ensures EraseFrom(s, j, phrases, eatSpace) == [s[j]] + EraseFrom(s, j + 1, phrases, eatSpace)
  {
  }

  /**
    At the leftmost position where an alternative matches, the first matching
    alternative (in pattern order) is deleted, with the whitespace after it
    when `eatSpace`, and the scan resumes behind it.
  */
  lemma EraseLeftmost(s: string, i: nat, q: nat, phrases: seq<Phrase>, eatSpace: bool)
    requires q < |phrases| && MatchesFold(s, i, phrases[q])
    requires forall p :: 0 <= p < q ==> !MatchesFold(s, i, phrases[p])
    requires forall k, p :: 0 <= k < i && 0 <= p < |phrases| ==> !MatchesFold(s, k, phrases[p])
    ensures var next := i + |phrases[q]|;
      Erase(s, phrases, eatSpace) == s[..i] + EraseFrom(s, if eatSpace then RunEnd(s, next, Space) else next, phrases, eatSpace)
  {
    forall k | 0 <= k < i ensures FirstMatch(s, k, phrases).None? {
      NoMatchHere(s, k, phrases);
    }
    EraseFromPrefix(s, 0, i, phrases, eatSpace);
    FirstMatchIs(s, i, q, phrases);
    assert i < |s|;
    EraseFromMatch(s, i, q, phrases, eatSpace);
    assert s[0..i] == s[..i];
  }

  /** The first alternative matching at `i` is the one `FirstMatch` reports. */
  lemma FirstMatchIs(s: string, i: nat, q: nat, phrases: seq<Phrase>)
    requires q < |phrases| && MatchesFold(s, i, phrases[q])
    requires forall p :: 0 <= p < q ==> !MatchesFold(s, i, phrases[p])
    ensures FirstMatch(s, i, phrases) == Some(q)
  {
    FirstMatchMeaning(s, i, phrases, 0);
  }

  /** At a match, deletion skips the matched phrase, and the whitespace after it when `eatSpace`. */
  lemma EraseFromMatch(s: string, i: nat, q: nat, phrases: seq<Phrase>, eatSpace: bool)
    requires i < |s| && q < |phrases| && i + |phrases[q]| <= |s| && FirstMatch(s, i, phrases) == Some(q)
    ensures EraseFrom(s, i, phrases, eatSpace) == EraseFrom(s, Resume(s, i + |phrases[q]|, eatSpace), phrases, eatSpace)
  {
  }

  // ---------------------------------------------------------------------------
  // f. `re.sub(r"\.\s*\.", ".", s)`   i. `re.sub(r",\s*,+", ",", s)`

  /** The character `c`, optional whitespace and another `c` begin at `i`. */
  predicate PairAt(s: string, i: nat, c: char) {
    i < |s| && s[i] == c && var e := RunEnd(s, i + 1, Space); e < |s| && s[e] == c
  }

  /** `CollapseDots` from position `i` on. */
  function CollapseDotsFrom(s: string, i: nat): (r: string)
    requires i <= |s|
    ensures |r| <= |s| - i
    decreases |s| - i
  {
    if i == |s| then []
    else if PairAt(s, i, '.') then
      [s[i]] + CollapseDotsFrom(s, RunEnd(s, i + 1, Space) + 1)
    else
      [s[i]] + CollapseDotsFrom(s, i + 1)
  }

  function CollapseDots(s: string): (r: string)
    ensures |r| <= |s|
    ensures CharsFrom(r, s, {})
  {
    CollapseDotsChars(s, 0);
    CollapseDotsFrom(s, 0)
  }

  /** Collapsing only keeps characters of its input. */
  lemma {:induction false} CollapseDotsChars(s: string, i: nat)
    requires i <= |s|
    ensures CharsFrom(CollapseDotsFrom(s, i), s, {})
    decreases |s| - i
  {
    if i < |s| {
      var rest := if PairAt(s, i, '.') then RunEnd(s, i + 1, Space) + 1 else i + 1;
      CollapseDotsChars(s, rest);
      assert CollapseDotsFrom(s, i) == [s[i]] + CollapseDotsFrom(s, rest);
      CharsFromSlice(s, i, i + 1);
      assert s[i..i + 1] == [s[i]];
      CharsFromConcat([s[i]], CollapseDotsFrom(s, rest), s, {});
    }
  }

  /** `CollapseCommas` from position `i` on. */
  function CollapseCommasFrom(s: string, i: nat): (r: string)
    requires i <= |s|
    ensures |r| <= |s| - i
    decreases |s| - i
  {
    if i == |s| then []
    else if PairAt(s, i, ',') then
      [s[i]] + CollapseCommasFrom(s, RunEnd(s, RunEnd(s, i + 1, Space), Comma))
    else
      [s[i]] + CollapseCommasFrom(s, i + 1)
  }

  function CollapseCommas(s: string): (r: string)
    ensures |r| <= |s|
    ensures CharsFrom(r, s, {})
  {
    CollapseCommasChars(s, 0);
    CollapseCommasFrom(s, 0)
  }

  /** Collapsing only keeps characters of its input. */
  lemma {:induction false} CollapseCommasChars(s: string, i: nat)
    requires i <= |s|
    ensures CharsFrom(CollapseCommasFrom(s, i), s, {})
    decreases |s| - i
  {
    if i < |s| {
      var rest := if PairAt(s, i, ',') then RunEnd(s, RunEnd(s, i + 1, Space), Comma) else i + 1;
      CollapseCommasChars(s, rest);
      assert CollapseCommasFrom(s, i) == [s[i]] + CollapseCommasFrom(s, rest);
      CharsFromSlice(s, i, i + 1);
      assert s[i..i + 1] == [s[i]];
      CharsFromConcat([s[i]], CollapseCommasFrom(s, rest), s, {});
    }
  }

  /** Holds when no `c`-pair begins at or after `i`. */
  predicate NoPairFrom(s: string, i: nat, c: char) {
    forall j :: i <= j < |s| ==> !PairAt(s, j, c)
  }

  lemma {:induction false} CollapseDotsWithoutPair(s: string, i: nat)
    requires i <= |s| && NoPairFrom(s, i, '.')
    ensures CollapseDotsFrom(s, i) == s[i..]
    decreases |s| - i
  {
    if i < |s| {
      CollapseDotsWithoutPair(s, i + 1);
      assert s[i..] == [s[i]] + s[i + 1..];
    }
  }

  lemma {:induction false} CollapseCommasWithoutPair(s: string, i: nat)
    requires i <= |s| && NoPairFrom(s, i, ',')
    ensures CollapseCommasFrom(s, i) == s[i..]
    decreases |s| - i
  {
    if i < |s| {
      CollapseCommasWithoutPair(s, i + 1);
      assert s[i..] == [s[i]] + s[i + 1..];
    }
  }

  /** Before the first period pair, `CollapseDots` copies the text unchanged. */
  lemma {:induction false} CollapseDotsPrefix(s: string, j: nat, i: nat)
    requires j <= i <= |s| && forall k :: j <= k < i ==> !PairAt(s, k, '.')
    ensures CollapseDotsFrom(s, j) == s[j..i] + CollapseDotsFrom(s, i)
    decreases i - j
  {
    if j < i {
      CollapseDotsPrefix(s, j + 1, i);
      assert !PairAt(s, j, '.');
      assert CollapseDotsFrom(s, j) == [s[j]] + CollapseDotsFrom(s, j + 1);
      ConsSlice(s, j, i, CollapseDotsFrom(s, i));
    } else {
      assert s[j..i] == [];
    }
  }

  /** The leftmost `.\s*.` becomes a single period, and the scan resumes after it. */
  lemma CollapseDotsLeftmost(s: string, i: nat)
    requires PairAt(s, i, '.') && forall j :: 0 <= j < i ==> !PairAt(s, j, '.')
    ensures CollapseDots(s) == s[..i] + "." + CollapseDotsFrom(s, RunEnd(s, i + 1, Space) + 1)
  {
    CollapseDotsPrefix(s, 0, i);
    assert s[0..i] == s[..i];
  }

  /** Before the first comma pair, `CollapseCommas` copies the text unchanged. */
  lemma {:induction false} CollapseCommasPrefix(s: string, j: nat, i: nat)
    requires j <= i <= |s| && forall k :: j <= k < i ==> !PairAt(s, k, ',')
    ensures CollapseCommasFrom(s, j) == s[j..i] + CollapseCommasFrom(s, i)
    decreases i - j
  {
    if j < i {
      CollapseCommasPrefix(s, j + 1, i);
      assert !PairAt(s, j, ',');
      assert CollapseCommasFrom(s, j) == [s[j]] + CollapseCommasFrom(s, j + 1);
      ConsSlice(s, j, i, CollapseCommasFrom(s, i));
    } else {
      assert s[j..i] == [];
    }
  }

  /** The leftmost `,\s*,+` becomes a single comma, and the scan resumes after its last comma. */
  lemma CollapseCommasLeftmost(s: string, i: nat)
    requires PairAt(s, i, ',') && forall j :: 0 <= j < i ==> !PairAt(s, j, ',')
    ensures CollapseCommas(s) == s[..i] + "," + CollapseCommasFrom(s, RunEnd(s, RunEnd(s, i + 1, Space), Comma))
  {
    CollapseCommasPrefix(s, 0, i);
    assert s[0..i] == s[..i];
  }

  // ---------------------------------------------------------------------------
  // g. `s.strip('.')`   h. `re.sub(r"^\s*$", "", s)`   j. truncation

  function StripDots(s: string): (r: string)
    ensures exists i :: TrimmedAt(s, r, i, Dot)
    ensures r == [] || (r[0] != '.' && r[|r| - 1] != '.')
    ensures CharsFrom(r, s, {})
  {
    StripBy(s, Dot)
  }

  predicate IsBlank(s: string) {
    forall i :: 0 <= i < |s| ==> IsSpace(s[i])
  }

  /** A whitespace-only text becomes empty; any other text is kept. */
  function DropBlank(s: string): (r: string)
    ensures r == [] <==> IsBlank(s)
    ensures !IsBlank(s) ==> r == s
    ensures CharsFrom(r, s, {})
  {
    if IsBlank(s) then [] else s
  }

  // ---------------------------------------------------------------------------
  // The whole pipeline.

  /** One text transform of the pipeline. */
  datatype Transform =
    | AddressCut                                     // a
    | TrailingPunct                                  // b
    | Whitespace                                     // c
    | Delete(phrases: seq<Phrase>, eatSpace: bool)   // d, e
    | DoubledPeriods                                 // f
    | OuterPeriods                                   // g
    | Blank                                          // h
    | DoubledCommas                                  // i

  /** Steps a to i of the source, in source order. */
  const Pipeline: seq<Transform> := [
    AddressCut, TrailingPunct, Whitespace,
    Delete(UnitPhrases, true), Delete(LocalityPhrases, false),
    DoubledPeriods, OuterPeriods, Blank, DoubledCommas
  ]

  function Apply(t: Transform, s: string): (r: string)
    ensures CharsFrom(r, s, {' '})
  {
    match t
    case Whitespace => CollapseWhitespace(s)
    case _ =>
      var r := Deletion(t, s);
      CharsFromWiden(r, s, {}, {' '});
      r
  }

  /** The transforms other than whitespace collapsing only keep or drop characters of their input. */
  function Deletion(t: Transform, s: string): (r: string)
    requires !t.Whitespace?
    ensures CharsFrom(r, s, {})
  {
    match t
    case AddressCut => StripAddress(s)
    case TrailingPunct => StripTrailingPunct(s)
    case Delete(phrases, eatSpace) => Erase(s, phrases, eatSpace)
    case DoubledPeriods => CollapseDots(s)
    case OuterPeriods => StripDots(s)
    case Blank => DropBlank(s)
    case DoubledCommas => CollapseCommas(s)
  }

  /** Apply `ts` from first to last. */
  function ApplyAll(ts: seq<Transform>, s: string): (r: string)
    decreases |ts|
  {
    if ts == [] then s else ApplyAll(ts[1..], Apply(ts[0], s))
  }

  /** No transform introduces a capital letter. */
  lemma {:induction false} ApplyAllNoUpper(ts: seq<Transform>, s: string)
    ensures NoUpper(s) ==> NoUpper(ApplyAll(ts, s))
    decreases |ts|
  {
    if ts != [] && NoUpper(s) {
      var r := Apply(ts[0], s);
      CharsFromNoUpper(r, s, {' '});
      ApplyAllNoUpper(ts[1..], r);
    }
  }

  /** Steps a to i applied to a lower-cased key. */
  function Tidy(key: string): (r: string) {
    ApplyAll(Pipeline, key)
  }

  /** Step j: keep at most `MaxLength` characters, marking a cut with `Ellipsis`. */
  function Truncate(s: string): (r: string)
    ensures |r| <= MaxLength + |Ellipsis|
    ensures |s| > MaxLength ==> r == s[..MaxLength] + Ellipsis
    ensures |s| <= MaxLength ==> r == s
    ensures NoUpper(s) ==> NoUpper(r)
  {
    if |s| > MaxLength then s[..MaxLength] + Ellipsis else s
  }

  /** The text reported for a non-academic affiliation whose lower-cased key is `key`. */
  function Clean(key: string): (r: string)
    ensures |r| <= MaxLength + |Ellipsis|
    ensures |Tidy(key)| > MaxLength ==> r == Tidy(key)[..MaxLength] + Ellipsis
    ensures |Tidy(key)| <= MaxLength ==> r == Tidy(key)
    ensures NoUpper(key) ==> NoUpper(r)
  {
    ApplyAllNoUpper(Pipeline, key);
    Truncate(Tidy(key))
  }

  /** On a lower-cased key the first transform of the pipeline changes nothing. */
  lemma AddressCutIdleOnKey(key: string)
    requires NoUpper(key)
    ensures Apply(Pipeline[0], key) == key
  {
    StripAddressLowerCase(key);
  }
}
