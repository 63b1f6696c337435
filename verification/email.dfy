/**
  The contact-address search of `extract_email`. The serialized record is
  lower-cased and searched with three patterns in turn: an address on the
  same line as a correspondence marker, an address on the same line as the
  word "affiliation", and finally the first address anywhere. Each pattern is
  modelled by a scan over positions that follows the backtracking order of
  Python's `re` engine for that pattern.
*/
module Email {
  import opened Base
  import opened Text

  /** The address pattern `[a-z0-9.\-+_]+@[a-z0-9.\-+_]+\.[a-z]+` matched over `s[start..end]`. */
  datatype Span = Span(start: nat, end: nat)

  const AddressedMarker: Phrase := "to whom correspondence should be addressed"

  const CorrespondenceMarkers: seq<Phrase> := ["corresponding author", "contact author", AddressedMarker]

  const AffiliationMarkers: seq<Phrase> := ["affiliation"]

  /** What the search answers when the record holds no address. */
  const NotAvailable: string := "N/A"

  // ---------------------------------------------------------------------------
  // One address.

  /**
    `s[p..end]` is one way to match the address pattern: a local part ending
    before the `@` at `e`, a domain part ending before the dot at `q`, and a
    run of letters after that dot.
  */
  predicate EmailShape(s: string, p: int, e: int, q: int, end: int) {
    && 0 <= p < e && e + 1 < q && q + 1 < end <= |s|
    && (forall k :: p <= k < e ==> In(s[k], EmailChar))
    && s[e] == '@'
    && (forall k :: e < k < q ==> In(s[k], EmailChar))
    && s[q] == '.'
    && (forall k :: q < k < end ==> IsLowerAlpha(s[k]))
  }

  /** The address pattern matches `s[p..end]`. */
  ghost predicate EmailMatch(s: string, p: int, end: int) {
    exists e, q :: EmailShape(s, p, e, q, end)
  }

  /** A dot at `q` followed by a letter: where the pattern's `\.[a-z]+` can start. */
  predicate DotBeforeLetter(s: string, q: int) {
    0 <= q && q + 1 < |s| && s[q] == '.' && IsLowerAlpha(s[q + 1])
  }

  /** The last dot before a letter in `[lo, j)`: where the greedy domain part gives back to. */
  function DomainDot(s: string, lo: nat, j: nat): (q: Option<nat>)
    ensures q.Some? ==> lo <= q.value < j && DotBeforeLetter(s, q.value)
    ensures q.Some? ==> forall k :: q.value < k < j ==> !DotBeforeLetter(s, k)
    ensures q.None? ==> forall k :: lo <= k < j ==> !DotBeforeLetter(s, k)
    decreases j
  {
    if j <= lo then None
    else if DotBeforeLetter(s, j - 1) then Some(j - 1)
    else DomainDot(s, lo, j - 1)
  }

  /** Where the address pattern, tried at `p`, ends (`None` when it fails there). */
  function EmailAt(s: string, p: nat): (r: Option<nat>)
    ensures r.Some? ==> p < r.value <= |s|
  {
    if p >= |s| || !In(s[p], EmailChar) then None
    else
      var e := RunEnd(s, p, EmailChar);
      if e == |s| || s[e] != '@' then None
      else
        match DomainDot(s, e + 2, RunEnd(s, e + 1, EmailChar))
        case None => None
        case Some(q) => Some(RunEnd(s, q + 1, LowerAlpha))
  }

  /** The engine's match at `p`, when there is one, is a match of the pattern, and the longest one. */
  lemma EmailAtSound(s: string, p: nat)
    requires EmailAt(s, p).Some?
    ensures EmailMatch(s, p, EmailAt(s, p).value)
    ensures forall end :: EmailMatch(s, p, end) ==> end <= EmailAt(s, p).value
  {
    var e := RunEnd(s, p, EmailChar);
    var f := RunEnd(s, e + 1, EmailChar);
    var q := DomainDot(s, e + 2, f).value;
    var end := RunEnd(s, q + 1, LowerAlpha);
    assert EmailShape(s, p, e, q, end);
    forall end' | EmailMatch(s, p, end') ensures end' <= end {
      var e', q' :| EmailShape(s, p, e', q', end');
      LocalPartEnds(s, p, e', q', end');
      DomainDotBound(s, p, e', q', end');
      if q' < q {
        assert !IsLowerAlpha(s[q]);
      }
    }
  }

  /** The engine fails at `p` only when the pattern cannot match there. */
  lemma EmailAtComplete(s: string, p: nat, end: int)
    requires EmailMatch(s, p, end)
    ensures EmailAt(s, p).Some?
  {
    var e, q :| EmailShape(s, p, e, q, end);
    LocalPartEnds(s, p, e, q, end);
    DomainDotBound(s, p, e, q, end);
  }

  /** The engine's match at `p` exists exactly when the pattern can match there, and it is the longest one. */
  lemma EmailAtMeaning(s: string, p: nat)
    ensures EmailAt(s, p).Some? ==> EmailMatch(s, p, EmailAt(s, p).value)
    ensures EmailAt(s, p).Some? ==> forall end :: EmailMatch(s, p, end) ==> end <= EmailAt(s, p).value
    ensures EmailAt(s, p).None? ==> forall end :: !EmailMatch(s, p, end)
  {
    if EmailAt(s, p).Some? {
      EmailAtSound(s, p);
    } else {
      forall end | EmailMatch(s, p, end) ensures false {
        EmailAtComplete(s, p, end);
      }
    }
  }

  /** In any match at `p` the `@` sits where the run of address characters from `p` stops. */
  lemma LocalPartEnds(s: string, p: nat, e: int, q: int, end: int)
    requires EmailShape(s, p, e, q, end)
    ensures In(s[p], EmailChar) && e == RunEnd(s, p, EmailChar)
  {
    var r := RunEnd(s, p, EmailChar);
    assert !In(s[e], EmailChar);
  }

  /** In any match at `p` the dot before the letters lies inside the domain run, so the greedy search sees it. */
  lemma DomainDotBound(s: string, p: nat, e: int, q: int, end: int)
    requires EmailShape(s, p, e, q, end)
    ensures var f := RunEnd(s, e + 1, EmailChar);
      q < f && DotBeforeLetter(s, q) && DomainDot(s, e + 2, f).Some? && q <= DomainDot(s, e + 2, f).value
  {
    assert DotBeforeLetter(s, q);
  }

  /** Every matched address carries its `@`. */
  lemma AddressHasAt(s: string, p: nat, end: nat)
    requires EmailAt(s, p) == Some(end)
    ensures '@' in s[p..end]
  {
    EmailAtMeaning(s, p);
    var e, q :| EmailShape(s, p, e, q, end);
    assert s[p..end][e - p] == '@';
  }

  // ---------------------------------------------------------------------------
  // Leftmost matches.

  /** `re.search` of the address pattern from position `i`. */
  function FirstEmailFrom(s: string, i: nat): (r: Option<Span>)
    ensures r.Some? ==> i <= r.value.start && EmailAt(s, r.value.start) == Some(r.value.end)
    ensures r.Some? ==> forall p :: i <= p < r.value.start ==> EmailAt(s, p).None?
    ensures r.None? ==> forall p :: i <= p ==> EmailAt(s, p).None?
    decreases |s| - i
  {
    if i >= |s| then None
    else
      match EmailAt(s, i)
      case Some(end) => Some(Span(i, end))
      case None => FirstEmailFrom(s, i + 1)
  }

  /** No line break in `s[i..p]`: Python's `.` can cross it. */
  predicate LineFree(s: string, i: int, p: int) {
    0 <= i <= p <= |s| && forall k :: i <= k < p ==> s[k] != '\n'
  }

  /** `.*?` followed by the address pattern, tried from `i`: the nearest address on the same line. */
  function SameLineEmail(s: string, i: nat): (r: Option<Span>)
    ensures r.Some? ==> LineFree(s, i, r.value.start) && EmailAt(s, r.value.start) == Some(r.value.end)
    ensures r.Some? ==> forall p :: i <= p < r.value.start ==> EmailAt(s, p).None?
    ensures r.None? ==> forall p :: LineFree(s, i, p) ==> EmailAt(s, p).None?
    decreases |s| - i
  {
    if i >= |s| then None
    else
      match EmailAt(s, i)
      case Some(end) => Some(Span(i, end))
      case None => if s[i] != '\n' then SameLineEmail(s, i + 1) else None
  }

  /** What is matched after a marker: the span found from a position, if any. */
  type Follow = nat -> Option<Span>

  /** The `.*?(address)` part of the marker patterns, in the text `s`. */
  function SameLine(s: string): Follow {
    (i: nat) => SameLineEmail(s, i)
  }

  /** Marker `ms[k]` starts at `i` and `follow` finds something after it. */
  predicate MarkerHit(s: string, ms: seq<Phrase>, follow: Follow, i: int, k: int) {
    0 <= k < |ms| && OccursAt(s, ms[k], i) && follow(i + |ms[k]|).Some?
  }

  /**
    The hit `re.search` reports when it starts trying at `from`: the leftmost
    start, and at that start the first alternative that succeeds.
  */
  ghost predicate LeftmostHit(s: string, ms: seq<Phrase>, follow: Follow, from: int, i: int, k: int) {
    && from <= i && MarkerHit(s, ms, follow, i, k)
    && (forall i', k' :: from <= i' < i ==> !MarkerHit(s, ms, follow, i', k'))
    && (forall k' :: 0 <= k' < k ==> !MarkerHit(s, ms, follow, i, k'))
  }

  /** The alternatives of `(m1|m2|...)` tried in order at `i`, from alternative `k`. */
  function MarkerAt(s: string, ms: seq<Phrase>, follow: Follow, i: nat, k: nat): (r: Option<Span>)
    ensures r.Some? ==> exists j :: k <= j && MarkerHit(s, ms, follow, i, j) && r == follow(i + |ms[j]|)
                          && forall j' :: k <= j' < j ==> !MarkerHit(s, ms, follow, i, j')
    ensures r.None? ==> forall j :: k <= j ==> !MarkerHit(s, ms, follow, i, j)
    decreases |ms| - k
  {
    if k >= |ms| then None
    else if OccursAt(s, ms[k], i) && follow(i + |ms[k]|).Some? then follow(i + |ms[k]|)
    else MarkerAt(s, ms, follow, i, k + 1)
  }

  /** `re.search("(m1|m2|...)" + tail, s[from..])` where `follow` matches `tail`, reporting what `follow` found. */
  function MarkedFrom(s: string, ms: seq<Phrase>, follow: Follow, from: nat): (r: Option<Span>)
    ensures r.Some? ==> exists j: nat :: r == follow(j)
    decreases |s| + 1 - from
  {
    if from > |s| then None
    else
      match MarkerAt(s, ms, follow, from, 0)
      case Some(sp) => Some(sp)
      case None => MarkedFrom(s, ms, follow, from + 1)
  }

  /** `re.search("(m1|m2|...).*?(address)", s)`, reporting group 2. */
  function MarkedEmail(s: string, ms: seq<Phrase>): (r: Option<Span>)
    ensures r.Some? ==> EmailAt(s, r.value.start) == Some(r.value.end)
  {
    var r := MarkedFrom(s, ms, SameLine(s), 0);
    if r.Some? then
      var j: nat :| r == SameLine(s)(j);
      r
    else r
  }

  /** The marker search finds nothing only when no marker is followed by a match. */
  lemma {:induction false} MarkedFromNone(s: string, ms: seq<Phrase>, follow: Follow, from: nat)
    ensures MarkedFrom(s, ms, follow, from).None? <==> forall i, k :: from <= i ==> !MarkerHit(s, ms, follow, i, k)
    decreases |s| + 1 - from
  {
    if from <= |s| && MarkerAt(s, ms, follow, from, 0).None? {
      MarkedFromNone(s, ms, follow, from + 1);
    }
  }

  /** When the marker search finds something, it is what follows the leftmost hit. */
  lemma {:induction false} MarkedFromSome(s: string, ms: seq<Phrase>, follow: Follow, from: nat)
    requires MarkedFrom(s, ms, follow, from).Some?
    ensures exists i, k :: LeftmostHit(s, ms, follow, from, i, k) && MarkedFrom(s, ms, follow, from) == follow(i + |ms[k]|)
    decreases |s| + 1 - from
  {
    var here := MarkerAt(s, ms, follow, from, 0);
    if here.Some? {
      var j :| 0 <= j && MarkerHit(s, ms, follow, from, j) && here == follow(from + |ms[j]|)
        && forall j' :: 0 <= j' < j ==> !MarkerHit(s, ms, follow, from, j');
      assert LeftmostHit(s, ms, follow, from, from, j);
    } else {
      MarkedFromSome(s, ms, follow, from + 1);
      var i, k :| LeftmostHit(s, ms, follow, from + 1, i, k) && MarkedFrom(s, ms, follow, from + 1) == follow(i + |ms[k]|);
      assert LeftmostHit(s, ms, follow, from, i, k);
    }
  }

  /** The marker search reports what follows the leftmost hit, and reports nothing only when there is no hit. */
  lemma MarkedFromMeaning(s: string, ms: seq<Phrase>, follow: Follow, from: nat)
    ensures MarkedFrom(s, ms, follow, from).None? <==> forall i, k :: from <= i ==> !MarkerHit(s, ms, follow, i, k)
    ensures MarkedFrom(s, ms, follow, from).Some? ==>
      exists i, k :: LeftmostHit(s, ms, follow, from, i, k) && MarkedFrom(s, ms, follow, from) == follow(i + |ms[k]|)
  {
    MarkedFromNone(s, ms, follow, from);
    if MarkedFrom(s, ms, follow, from).Some? {
      MarkedFromSome(s, ms, follow, from);
    }
  }

  // ---------------------------------------------------------------------------
  // The three tiers.

  /**
    The span reported for the lower-cased record `s` when `first` and
    `second` are the marker lists of the first two searches.
  */
  function ChooseEmail(s: string, first: seq<Phrase>, second: seq<Phrase>): (r: Option<Span>)
    ensures r.Some? ==> EmailAt(s, r.value.start) == Some(r.value.end)
    ensures r.None? ==> forall p: nat :: EmailAt(s, p).None?
  {
    match MarkedEmail(s, first)
    case Some(sp) => Some(sp)
    case None =>
      match MarkedEmail(s, second)
      case Some(sp) => Some(sp)
      case None => FirstEmailFrom(s, 0)
  }

  /** The text reported for the lower-cased record `s`. */
  function Reported(s: string, first: seq<Phrase>, second: seq<Phrase>): (r: string)
    ensures r == NotAvailable || ('@' in r && CharsFrom(r, s, {}))
  {
    match ChooseEmail(s, first, second)
    case None => NotAvailable
    case Some(sp) =>
      AddressHasAt(s, sp.start, sp.end);
      CharsFromSlice(s, sp.start, sp.end);
      s[sp.start..sp.end]
  }

  /** `extract_email` applied to the serialized record `record`. */
  function ExtractEmail(record: string): (r: string)
    ensures r == NotAvailable || ('@' in r && NoUpper(r))
  {
    var r := Reported(Lower(record), CorrespondenceMarkers, AffiliationMarkers);
    if r == NotAvailable then r
    else
      CharsFromNoUpper(r, Lower(record), {});
      r
  }

  // ---------------------------------------------------------------------------
  // What the search promises.

  /** `r` is the text of span `sp` of `s`. */
  predicate Reports(s: string, r: string, sp: Option<Span>) {
    sp.Some? && sp.value.start <= sp.value.end <= |s| && r == s[sp.value.start..sp.value.end]
  }

  /** Nothing is reported exactly when no part of the text matches the address pattern. */
  lemma NotAvailableIffNoAddress(s: string, first: seq<Phrase>, second: seq<Phrase>)
    ensures Reported(s, first, second) == NotAvailable <==> forall p, end :: !EmailMatch(s, p, end)
  {
    var chosen := ChooseEmail(s, first, second);
    if chosen.Some? {
      var sp := chosen.value;
      EmailAtMeaning(s, sp.start);
      AddressHasAt(s, sp.start, sp.end);
      assert '@' !in NotAvailable;
    } else {
      forall p: int, end | EmailMatch(s, p, end) ensures false {
        EmailAtMeaning(s, p as nat);
      }
    }
  }

  /** The shape of a match carries over to the matched text on its own. */
  lemma ShapeSlice(s: string, p: nat, e: int, q: int, end: int)
    requires EmailShape(s, p, e, q, end)
    ensures EmailShape(s[p..end], 0, e - p, q - p, end - p)
  {
    var t := s[p..end];
    assert forall k :: 0 <= k < |t| ==> t[k] == s[p + k];
  }

  /** A matched span, taken on its own, matches the address pattern in full. */
  lemma SpanIsAddress(s: string, p: nat, end: nat, r: string)
    requires EmailAt(s, p) == Some(end) && r == s[p..end]
    ensures EmailMatch(r, 0, |r|)
  {
    EmailAtMeaning(s, p);
    var e, q :| EmailShape(s, p, e, q, end);
    ShapeSlice(s, p, e, q, end);
    assert EmailShape(r, 0, e - p, q - p, |r|);
  }

  /** A reported address is a piece of the text, and it matches the address pattern in full. */
  lemma ReportedIsAddress(s: string, first: seq<Phrase>, second: seq<Phrase>)
    ensures var r := Reported(s, first, second);
      r != NotAvailable ==>
        && (exists p, end :: EmailAt(s, p) == Some(end) && Reports(s, r, Some(Span(p, end))))
        && EmailMatch(r, 0, |r|)
  {
    var chosen := ChooseEmail(s, first, second);
    if chosen.Some? {
      var sp := chosen.value;
      var r := Reported(s, first, second);
      assert r == s[sp.start..sp.end];
      assert Reports(s, r, Some(Span(sp.start, sp.end)));
      SpanIsAddress(s, sp.start, sp.end, r);
    }
  }

  /** An address after a `first` marker wins: the one after the leftmost such marker. */
  lemma FirstTierWins(s: string, first: seq<Phrase>, second: seq<Phrase>)
    requires exists i, k :: MarkerHit(s, first, SameLine(s), i, k)
    ensures exists i, k ::
              && LeftmostHit(s, first, SameLine(s), 0, i, k)
              && Reports(s, Reported(s, first, second), SameLine(s)(i + |first[k]|))
  {
    MarkedFromMeaning(s, first, SameLine(s), 0);
    var found := MarkedFrom(s, first, SameLine(s), 0);
    var i, k :| LeftmostHit(s, first, SameLine(s), 0, i, k) && found == SameLine(s)(i + |first[k]|);
    assert ChooseEmail(s, first, second) == found;
    assert Reports(s, Reported(s, first, second), found);
  }

  /** Failing that, an address after the leftmost `second` marker that has one. */
  lemma SecondTierNext(s: string, first: seq<Phrase>, second: seq<Phrase>)
    requires forall i, k :: !MarkerHit(s, first, SameLine(s), i, k)
    requires exists i, k :: MarkerHit(s, second, SameLine(s), i, k)
    ensures exists i, k ::
              && LeftmostHit(s, second, SameLine(s), 0, i, k)
              && Reports(s, Reported(s, first, second), SameLine(s)(i + |second[k]|))
  {
    MarkedFromMeaning(s, first, SameLine(s), 0);
    MarkedFromMeaning(s, second, SameLine(s), 0);
    var found := MarkedFrom(s, second, SameLine(s), 0);
    var i, k :| LeftmostHit(s, second, SameLine(s), 0, i, k) && found == SameLine(s)(i + |second[k]|);
    assert ChooseEmail(s, first, second) == found;
    assert Reports(s, Reported(s, first, second), found);
  }

  /** Failing both, the leftmost address anywhere, if there is one. */
  lemma LeftmostFallback(s: string, first: seq<Phrase>, second: seq<Phrase>)
    requires forall i, k :: !MarkerHit(s, first, SameLine(s), i, k)
    requires forall i, k :: !MarkerHit(s, second, SameLine(s), i, k)
    ensures var r := Reported(s, first, second);
      r != NotAvailable ==>
        exists p: nat, end :: EmailAt(s, p) == Some(end) && (forall p': nat :: p' < p ==> EmailAt(s, p').None?)
          && Reports(s, r, Some(Span(p, end)))
  {
    MarkedFromMeaning(s, first, SameLine(s), 0);
    MarkedFromMeaning(s, second, SameLine(s), 0);
    assert ChooseEmail(s, first, second) == FirstEmailFrom(s, 0);
  }

  /** `extract_email` answers "N/A" exactly when the lower-cased record holds no address. */
  lemma ExtractEmailNotAvailable(record: string)
    ensures ExtractEmail(record) == NotAvailable <==> forall p, end :: !EmailMatch(Lower(record), p, end)
  {
    NotAvailableIffNoAddress(Lower(record), CorrespondenceMarkers, AffiliationMarkers);
  }
}
