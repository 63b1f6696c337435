/**
  Character classes and the handful of Python string operations the engine
  relies on: `str.lower`, `str.strip`, `str.split()` with `str.join`, and
  substring search. Lower-casing is modelled for ASCII letters only.
  Scanning functions work on positions of one string rather than on its
  suffixes, so that every piece they return is visibly a slice of the input.
*/
module Text {

  /** A non-empty search phrase (a keyword or a literal regex alternative). */
  type Phrase = p: string | |p| > 0 witness "x"

  /** The characters Python's `str.isspace` accepts; `\s`, `str.split()` and `str.strip()` use the same set. */
  const Whitespace: set<char> :=
    { ' ', '\t', '\n', '\U{0B}', '\U{0C}', '\r', '\U{1C}', '\U{1D}', '\U{1E}', '\U{1F}',
      '\U{85}', '\U{A0}', '\U{1680}', '\U{2000}', '\U{2001}', '\U{2002}', '\U{2003}',
      '\U{2004}', '\U{2005}', '\U{2006}', '\U{2007}', '\U{2008}', '\U{2009}', '\U{200A}',
      '\U{2028}', '\U{2029}', '\U{202F}', '\U{205F}', '\U{3000}' }

  predicate IsSpace(c: char) { c in Whitespace }

  predicate IsUpper(c: char) { 'A' <= c <= 'Z' }

  predicate IsLowerAlpha(c: char) { 'a' <= c <= 'z' }

  predicate IsDigit(c: char) { '0' <= c <= '9' }

  /** The character classes the engine's patterns and string methods test. */
  datatype CharClass = Space | NonSpace | Digit | LowerAlpha | Dot | Comma | Punct | EmailChar

  predicate In(c: char, k: CharClass) {
    match k
    case Space => IsSpace(c)
    case NonSpace => !IsSpace(c)
    case Digit => IsDigit(c)
    case LowerAlpha => IsLowerAlpha(c)
    case Dot => c == '.'
    case Comma => c == ','
    case Punct => c == ',' || c == '.'
    case EmailChar => IsLowerAlpha(c) || IsDigit(c) || c == '.' || c == '-' || c == '+' || c == '_'
  }

  function LowerChar(c: char): (d: char)
    ensures !IsUpper(d)
    ensures IsUpper(c) ==> IsLowerAlpha(d)
    ensures !IsUpper(c) ==> d == c
  {
    if IsUpper(c) then (c as int + 32) as char else c
  }

  /** Holds when no ASCII capital letter occurs in `s`. */
  predicate NoUpper(s: string) {
    forall i :: 0 <= i < |s| ==> !IsUpper(s[i])
  }

  /** `s.lower()` restricted to ASCII letters. */
  function Lower(s: string): (r: string)
    ensures |r| == |s|
    ensures forall i :: 0 <= i < |s| ==> r[i] == LowerChar(s[i])
    ensures NoUpper(r)
    ensures NoUpper(s) ==> r == s
  {
    seq(|s|, i requires 0 <= i < |s| => LowerChar(s[i]))
  }

  // ---------------------------------------------------------------------------
  // Runs of one character class.

  /** The end of the run of `k` characters that starts at `i`. */
  function RunEnd(s: string, i: nat, k: CharClass): (e: nat)
    requires i <= |s|
    ensures i <= e <= |s|
    ensures forall j :: i <= j < e ==> In(s[j], k)
    ensures e == |s| || !In(s[e], k)
    decreases |s| - i
  {
    if i < |s| && In(s[i], k) then RunEnd(s, i + 1, k) else i
  }

  /** The start of the run of `k` characters that ends at `j`. */
  function RunStart(s: string, j: nat, k: CharClass): (b: nat)
    requires j <= |s|
    ensures b <= j
    ensures forall i :: b <= i < j ==> In(s[i], k)
    ensures b == 0 || !In(s[b - 1], k)
  {
    if j > 0 && In(s[j - 1], k) then RunStart(s, j - 1, k) else j
  }

  /** `r` is `s[i..i + |r|]` and every character outside that block is in `k`. */
  predicate TrimmedAt(s: string, r: string, i: int, k: CharClass) {
    && 0 <= i <= |s| - |r| && r == s[i..i + |r|]
    && (forall j :: 0 <= j < i ==> In(s[j], k))
    && (forall j :: i + |r| <= j < |s| ==> In(s[j], k))
  }

  /** `s.strip(chars)`: drop leading and trailing characters in `k`. */
  function StripBy(s: string, k: CharClass): (r: string)
    ensures exists i :: TrimmedAt(s, r, i, k)
    ensures r == [] || (!In(r[0], k) && !In(r[|r| - 1], k))
    ensures CharsFrom(r, s, {})
  {
    var a := RunEnd(s, 0, k);
    if a == |s| then
      assert TrimmedAt(s, [], 0, k);
      []
    else
      var b := RunStart(s, |s|, k);
      assert a < b by { assert !In(s[a], k); }
      assert TrimmedAt(s, s[a..b], a, k);
      CharsFromSlice(s, a, b);
      s[a..b]
  }

  /** `s.strip()`: drop leading and trailing whitespace. */
  function Strip(s: string): (r: string)
    ensures exists i :: TrimmedAt(s, r, i, Space)
    ensures r == [] || (!IsSpace(r[0]) && !IsSpace(r[|r| - 1]))
  {
    StripBy(s, Space)
  }

  // ---------------------------------------------------------------------------
  // Where characters come from.

  /** Every character of `r` occurs in `s` or belongs to `extra`. */
  predicate CharsFrom(r: string, s: string, extra: set<char>) {
    forall i :: 0 <= i < |r| ==> r[i] in s || r[i] in extra
  }

  lemma CharsFromNoUpper(r: string, s: string, extra: set<char>)
    requires CharsFrom(r, s, extra) && NoUpper(s)
    requires forall c :: c in extra ==> !IsUpper(c)
    ensures NoUpper(r)
  {
    forall i | 0 <= i < |r| ensures !IsUpper(r[i]) {
      if r[i] in s {
        var j :| 0 <= j < |s| && s[j] == r[i];
      }
    }
  }

  lemma CharsFromSlice(s: string, a: int, b: int)
    requires 0 <= a <= b <= |s|
    ensures CharsFrom(s[a..b], s, {})
  {
    forall i | 0 <= i < b - a ensures s[a..b][i] in s {
      assert s[a..b][i] == s[a + i];
    }
  }

  lemma CharsFromConcat(x: string, y: string, s: string, extra: set<char>)
    requires CharsFrom(x, s, extra) && CharsFrom(y, s, extra)
    ensures CharsFrom(x + y, s, extra)
  {
    forall i | 0 <= i < |x + y| ensures (x + y)[i] in s || (x + y)[i] in extra {
      if i < |x| { assert (x + y)[i] == x[i]; } else { assert (x + y)[i] == y[i - |x|]; }
    }
  }

  lemma CharsFromWiden(r: string, s: string, extra: set<char>, more: set<char>)
    requires CharsFrom(r, s, extra) && extra <= more
    ensures CharsFrom(r, s, more)
  {
  }

  // ---------------------------------------------------------------------------
  // Substring search.

  /** `p` occurs in `s` as a contiguous block starting at `i`. */
  predicate OccursAt(s: string, p: string, i: int) {
    0 <= i && i + |p| <= |s| && s[i..i + |p|] == p
  }

  /** `p` occurs in `s` at or after position `i`. */
  predicate ContainsFrom(s: string, p: string, i: nat)
    decreases |s| - i
  {
    i + |p| <= |s| && (s[i..i + |p|] == p || ContainsFrom(s, p, i + 1))
  }

  /** `re.search(p, s)` for a literal pattern `p`. */
  predicate Contains(s: string, p: string) {
    ContainsFrom(s, p, 0)
  }

  /** `re.search("(p1|p2|...)", s)` for literal alternatives. */
  predicate ContainsAny(s: string, ps: seq<Phrase>)
    decreases |ps|
  {
    |ps| > 0 && (Contains(s, ps[0]) || ContainsAny(s, ps[1..]))
  }

  /** The scan finds exactly the occurrences at or after `i`. */
  lemma {:induction false} ContainsFromOccurs(s: string, p: string, i: nat)
    ensures ContainsFrom(s, p, i) <==> exists j :: i <= j && OccursAt(s, p, j)
    decreases |s| - i
  {
    if i + |p| <= |s| {
      ContainsFromOccurs(s, p, i + 1);
      if s[i..i + |p|] == p {
        assert OccursAt(s, p, i);
      } else {
        forall j | i <= j && OccursAt(s, p, j) ensures i + 1 <= j {
        }
      }
    }
  }

  lemma ContainsOccurs(s: string, p: string)
    ensures Contains(s, p) <==> exists i :: OccursAt(s, p, i)
  {
    ContainsFromOccurs(s, p, 0);
  }

  /** The alternation search finds exactly the occurrences of some alternative. */
  lemma {:induction false} ContainsAnyOccurs(s: string, ps: seq<Phrase>)
    ensures ContainsAny(s, ps) <==> exists q, i :: 0 <= q < |ps| && OccursAt(s, ps[q], i)
    decreases |ps|
  {
    if |ps| > 0 {
      ContainsOccurs(s, ps[0]);
      ContainsAnyOccurs(s, ps[1..]);
      if exists q, i :: 0 <= q < |ps| && OccursAt(s, ps[q], i) {
        var q, i :| 0 <= q < |ps| && OccursAt(s, ps[q], i);
        if q > 0 {
          assert OccursAt(s, ps[1..][q - 1], i);
        }
      }
      if ContainsAny(s, ps[1..]) {
        var q, i :| 0 <= q < |ps[1..]| && OccursAt(s, ps[1..][q], i);
        assert OccursAt(s, ps[q + 1], i);
      }
    }
  }

  // ---------------------------------------------------------------------------
  // `str.split()` and `str.join`.

  predicate IsWord(w: string) {
    |w| > 0 && forall i :: 0 <= i < |w| ==> !IsSpace(w[i])
  }

  /** A list of words in the sense of `str.split()`: non-empty, whitespace-free. */
  predicate AreWords(ws: seq<string>) {
    forall k :: 0 <= k < |ws| ==> IsWord(ws[k])
  }

  /** `s.split()` with no argument: the maximal runs of non-whitespace, in order. */
  function Split(s: string): (ws: seq<string>)
    decreases |s|
  {
    if s == [] then []
    else if IsSpace(s[0]) then Split(s[1..])
    else
      var e := RunEnd(s, 0, NonSpace);
      [s[..e]] + Split(s[e..])
  }

  /** `sep.join(ws)`. */
  function Join(sep: string, ws: seq<string>): (r: string)
    ensures ws == [] ==> r == []
    ensures |ws| == 1 ==> r == ws[0]
    decreases |ws|
  {
    if |ws| == 0 then []
    else if |ws| == 1 then ws[0]
    else ws[0] + sep + Join(sep, ws[1..])
  }

  /** Joining one more piece appends the separator and the piece. */
  lemma {:induction false} JoinSnoc(sep: string, ws: seq<string>, w: string)
    requires ws != []
    ensures Join(sep, ws + [w]) == Join(sep, ws) + sep + w
    decreases |ws|
  {
    if |ws| == 1 {
      assert (ws + [w])[1..] == [w];
    } else {
      assert (ws + [w])[1..] == ws[1..] + [w];
      JoinSnoc(sep, ws[1..], w);
    }
  }

  /** A slice is its first character followed by the rest of the slice. */
  lemma ConsSlice(s: string, j: nat, i: nat, tail: string)
    requires j < i <= |s|
    ensures [s[j]] + (s[j + 1..i] + tail) == s[j..i] + tail
  {
    assert s[j..i] == [s[j]] + s[j + 1..i];
  }

  lemma CharsFromSuffix(r: string, s: string, i: nat)
    requires i <= |s| && CharsFrom(r, s[i..], {})
    ensures CharsFrom(r, s, {})
  {
    forall x | 0 <= x < |r| ensures r[x] in s {
      var y :| 0 <= y < |s[i..]| && s[i..][y] == r[x];
      assert s[i + y] == r[x];
    }
  }

  /** Every piece `str.split()` returns is a word and is drawn from the split text. */
  lemma {:induction false} SplitWords(s: string)
    ensures AreWords(Split(s))
    ensures forall k :: 0 <= k < |Split(s)| ==> CharsFrom(Split(s)[k], s, {})
    decreases |s|
  {
    if s != [] {
      if IsSpace(s[0]) {
        SplitWords(s[1..]);
        forall k | 0 <= k < |Split(s)| ensures CharsFrom(Split(s)[k], s, {}) {
          CharsFromSuffix(Split(s)[k], s, 1);
        }
      } else {
        var e := RunEnd(s, 0, NonSpace);
        var w, rest := s[..e], Split(s[e..]);
        assert IsWord(w) by {
          forall x | 0 <= x < |w| ensures !IsSpace(w[x]) { assert In(s[x], NonSpace); }
        }
        CharsFromSlice(s, 0, e);
        SplitWords(s[e..]);
        var ws := [w] + rest;
        assert Split(s) == ws;
        forall k | 1 <= k < |ws| ensures IsWord(ws[k]) && CharsFrom(ws[k], s, {}) {
          assert ws[k] == rest[k - 1];
          CharsFromSuffix(rest[k - 1], s, e);
        }
      }
    }
  }

  /** A word followed by a blank and more text splits into that word and the words of the rest. */
  lemma SplitWordThen(w: string, j: string)
    requires IsWord(w)
    ensures Split(w + " " + j) == [w] + Split(j)
  {
    var s := w + " " + j;
    assert s[0] == w[0];
    assert forall x :: 0 <= x < |w| ==> s[x] == w[x];
    assert s[|w|] == ' ';
    assert RunEnd(s, 0, NonSpace) == |w|;
    assert s[..|w|] == w;
    assert s[|w|..] == " " + j;
    assert (" " + j)[1..] == j;
  }

  lemma SplitWord(w: string)
    requires IsWord(w)
    ensures Split(w) == [w]
  {
    assert RunEnd(w, 0, NonSpace) == |w|;
    assert w[..|w|] == w;
    assert w[|w|..] == [];
  }

  lemma AreWordsTail(ws: seq<string>)
    requires AreWords(ws) && |ws| > 0
    ensures IsWord(ws[0]) && AreWords(ws[1..])
  {
    var rest := ws[1..];
    forall k | 0 <= k < |rest| ensures IsWord(rest[k]) { assert rest[k] == ws[k + 1]; }
  }

  /** Splitting a blank-joined word list gives the list back. */
  lemma {:induction false} SplitJoin(ws: seq<string>)
    requires AreWords(ws)
    ensures Split(Join(" ", ws)) == ws
    decreases |ws|
  {
    if |ws| == 0 {
      assert Join(" ", ws) == [];
    } else if |ws| == 1 {
      AreWordsTail(ws);
      assert Join(" ", ws) == ws[0];
      SplitWord(ws[0]);
    } else {
      AreWordsTail(ws);
      var j := Join(" ", ws[1..]);
      assert Join(" ", ws) == ws[0] + " " + j;
      SplitJoin(ws[1..]);
      SplitWordThen(ws[0], j);
      assert [ws[0]] + ws[1..] == ws;
    }
  }

  /** `" ".join` of words starts and ends with a word and separates words by exactly one blank. */
  lemma {:induction false} JoinWordsShape(ws: seq<string>)
    requires AreWords(ws)
    ensures var r := Join(" ", ws);
      && (r == [] <==> ws == [])
      && (r != [] ==> !IsSpace(r[0]) && !IsSpace(r[|r| - 1]))
      && (forall i :: 0 <= i < |r| && IsSpace(r[i]) ==> r[i] == ' ' && 0 < i && !IsSpace(r[i - 1]))
    decreases |ws|
  {
    if |ws| == 1 {
      AreWordsTail(ws);
    } else if |ws| > 1 {
      AreWordsTail(ws);
      var rest := ws[1..];
      JoinWordsShape(rest);
      var w, j := ws[0], Join(" ", rest);
      var r := w + " " + j;
      assert Join(" ", ws) == r;
      forall i | 0 <= i < |r| && IsSpace(r[i])
        ensures r[i] == ' ' && 0 < i && !IsSpace(r[i - 1])
      {
        if i == |w| {
          assert r[i - 1] == w[|w| - 1];
        } else if i > |w| {
          assert r[i] == j[i - |w| - 1];
          if i - |w| - 1 > 0 {
            assert r[i - 1] == j[i - |w| - 2];
          }
        }
      }
    }
  }

  /** A blank-joined list of pieces draws its characters from the pieces and the blank. */
  lemma {:induction false} JoinChars(ws: seq<string>, s: string)
    requires forall k :: 0 <= k < |ws| ==> CharsFrom(ws[k], s, {})
    ensures CharsFrom(Join(" ", ws), s, {' '})
    decreases |ws|
  {
    if |ws| == 1 {
      assert CharsFrom(ws[0], s, {});
    } else if |ws| > 1 {
      var rest := ws[1..];
      assert forall k :: 0 <= k < |rest| ==> rest[k] == ws[k + 1];
      JoinChars(rest, s);
      var w, j := ws[0], Join(" ", rest);
      assert CharsFrom(w, s, {});
      CharsFromWiden(w, s, {}, {' '});
      assert CharsFrom(" ", s, {' '});
      CharsFromConcat(w, " ", s, {' '});
      CharsFromConcat(w + " ", j, s, {' '});
    }
  }
}
