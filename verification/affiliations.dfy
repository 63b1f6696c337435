/**
  Classification of a record's author affiliations (src/fetch_papers.py:391-452).
  A record is abstracted as its authors in document order, each with the texts
  of its affiliation elements in document order. What the classifier computes
  from one text is gathered in an `Entry`; the dedup gate and the two output
  lists are then a fold over the entries of the record.
*/
module Affiliations {
  import opened Text
  import opened Cleanup

  /** A company keyword sends an affiliation to the company list. */
  const CompanyKeywords: seq<Phrase> := ["pfizer", "biontech", "merck", "novartis", "biogen"]

  /** Otherwise, an academic keyword makes it academic and unreported. */
  const AcademicKeywords: seq<Phrase> := ["university", "college", "institute", "hospital", "center"]

  datatype Class = Company | Academic | NonAcademicOther

  /** The two lists the classifier reports for one record. */
  datatype Classified = Classified(nonAcademic: seq<string>, companies: seq<string>)

  /** The deduplication key: the stripped text, lower-cased. */
  function Key(text: string): (k: string)
    ensures NoUpper(k)
  {
    Lower(Strip(text))
  }

  /** The keyword tests, in the order the source makes them. */
  function Classify(key: string): (c: Class) {
    if ContainsAny(key, CompanyKeywords) then Company
    else if ContainsAny(key, AcademicKeywords) then Academic
    else NonAcademicOther
  }

  /** What the classifier derives from one affiliation text: its key, its class,
      the text reported for a company and the text reported otherwise. */
  datatype Entry = Entry(key: string, cls: Class, company: string, cleaned: string)

  function Describe(text: string): (e: Entry) {
    var key := Key(text);
    Entry(key, Classify(key), Strip(text), Clean(key))
  }

  /** `[f(t) for t in texts]`. The lemmas about it take `f` as a parameter, so
      that they never look inside `Describe`. */
  function Entries(f: string -> Entry, texts: seq<string>): (es: seq<Entry>)
    ensures |es| == |texts|
    decreases |texts|
  {
    if texts == [] then []
    else Entries(f, texts[..|texts| - 1]) + [f(texts[|texts| - 1])]
  }

  /** All affiliation texts of a record in document order. */
  function Flatten(authors: seq<seq<string>>): (texts: seq<string>)
    decreases |authors|
  {
    if authors == [] then []
    else Flatten(authors[..|authors| - 1]) + authors[|authors| - 1]
  }

  // ---------------------------------------------------------------------------
  // The loop of the source, as a fold.

  /** The classifier's state after some prefix of the affiliations: the keys seen so far and the output. */
  datatype Scan = Scan(seen: set<string>, out: Classified)

  const Start: Scan := Scan({}, Classified([], []))

  /** The output after a not-yet-seen affiliation is classified. */
  function Emit(out: Classified, e: Entry): Classified {
    match e.cls
    case Company => out.(companies := out.companies + [e.company])
    case Academic => out
    case NonAcademicOther =>
      if e.cleaned == [] then out else out.(nonAcademic := out.nonAcademic + [e.cleaned])
  }

  /** One iteration of the inner loop: the dedup gate, then classification. */
  function Visit(st: Scan, e: Entry): Scan {
    if e.key in st.seen then st
    else Scan(st.seen + {e.key}, Emit(st.out, e))
  }

  /** Visit `es` in order, starting from `st`. */
  function Feed(st: Scan, es: seq<Entry>): (end: Scan)
    decreases |es|
  {
    if es == [] then st
    else Visit(Feed(st, es[..|es| - 1]), es[|es| - 1])
  }

  // ---------------------------------------------------------------------------
  // A reference definition: deduplicate first, then filter each class.

  /** The keys of `es`. */
  function Keys(es: seq<Entry>): set<string>
    decreases |es|
  {
    if es == [] then {} else Keys(es[..|es| - 1]) + {es[|es| - 1].key}
  }

  /** The entries whose key has not occurred earlier, in order. */
  function Firsts(es: seq<Entry>): seq<Entry>
    decreases |es|
  {
    if es == [] then []
    else
      var init, last := es[..|es| - 1], es[|es| - 1];
      Firsts(init) + (if last.key in Keys(init) then [] else [last])
  }

  /** The company texts of the company entries among `es`, in order. */
  function CompanyTexts(es: seq<Entry>): seq<string>
    decreases |es|
  {
    if es == [] then []
    else
      var last := es[|es| - 1];
      CompanyTexts(es[..|es| - 1]) + (if last.cls == Company then [last.company] else [])
  }

  /** The non-empty cleaned texts of the non-academic entries among `es`, in order. */
  function NonAcademicTexts(es: seq<Entry>): seq<string>
    decreases |es|
  {
    if es == [] then []
    else
      var last := es[|es| - 1];
      NonAcademicTexts(es[..|es| - 1])
        + (if last.cls == NonAcademicOther && last.cleaned != [] then [last.cleaned] else [])
  }

  function Reference(es: seq<Entry>): Classified {
    var firsts := Firsts(es);
    Classified(NonAcademicTexts(firsts), CompanyTexts(firsts))
  }

  // ---------------------------------------------------------------------------
  // The operation.

  /** The two lists for a record whose affiliation texts are `texts`. */
  function ClassifyTexts(texts: seq<string>): (c: Classified)
    ensures c == Reference(Entries(Describe, texts))
  {
    FeedIsReference(Entries(Describe, texts));
    Feed(Start, Entries(Describe, texts)).out
  }

  /** `extract_affiliations`: the non-academic and the company list of one record. */
  function ExtractAffiliations(authors: seq<seq<string>>): (c: Classified)
    ensures c == Reference(Entries(Describe, Flatten(authors)))
  {
    ClassifyTexts(Flatten(authors))
  }

  /** The source's outer loop over the authors of a record. */
  method ExtractAffiliationsLoop(authors: seq<seq<string>>) returns (nonAcademic: seq<string>, companies: seq<string>)
    ensures Classified(nonAcademic, companies) == ExtractAffiliations(authors)
  {
    var seen: set<string> := {};
    nonAcademic, companies := [], [];
    var i := 0;
    while i < |authors|
      invariant 0 <= i <= |authors|
      invariant Scan(seen, Classified(nonAcademic, companies)) == Feed(Start, Entries(Describe, Flatten(authors[..i])))
    {
      ghost var done := Flatten(authors[..i]);
      seen, nonAcademic, companies := VisitAffiliations(seen, nonAcademic, companies, authors[i]);
      assert authors[..i + 1][..i] == authors[..i];
      assert Flatten(authors[..i + 1]) == done + authors[i];
      EntriesAppend(Describe, done, authors[i]);
      FeedAppend(Start, Entries(Describe, done), Entries(Describe, authors[i]));
      i := i + 1;
    }
    assert authors[..i] == authors;
  }

  /** The source's inner loop over the affiliations of one author. */
  method VisitAffiliations(seen0: set<string>, nonAcademic0: seq<string>, companies0: seq<string>, affiliations: seq<string>)
    returns (seen: set<string>, nonAcademic: seq<string>, companies: seq<string>)
    ensures Scan(seen, Classified(nonAcademic, companies))
         == Feed(Scan(seen0, Classified(nonAcademic0, companies0)), Entries(Describe, affiliations))
  {
    ghost var st0 := Scan(seen0, Classified(nonAcademic0, companies0));
    seen, nonAcademic, companies := seen0, nonAcademic0, companies0;
    var j := 0;
    while j < |affiliations|
      invariant 0 <= j <= |affiliations|
      invariant Scan(seen, Classified(nonAcademic, companies)) == Feed(st0, Entries(Describe, affiliations[..j]))
    {
      seen, nonAcademic, companies := VisitAffiliation(seen, nonAcademic, companies, affiliations[j]);
      FeedEntriesStep(Describe, st0, affiliations, j);
      j := j + 1;
    }
    assert affiliations[..j] == affiliations;
  }

  /** The body of the source's inner loop: the dedup gate, the keyword tests and the cleanup. */
  method VisitAffiliation(seen0: set<string>, nonAcademic0: seq<string>, companies0: seq<string>, text: string)
    returns (seen: set<string>, nonAcademic: seq<string>, companies: seq<string>)
    ensures Scan(seen, Classified(nonAcademic, companies))
         == Visit(Scan(seen0, Classified(nonAcademic0, companies0)), Describe(text))
  {
    seen, nonAcademic, companies := seen0, nonAcademic0, companies0;
    var key := Lower(Strip(text));
    if key !in seen {
      seen := seen + {key};
      if ContainsAny(key, CompanyKeywords) {
        companies := companies + [Strip(text)];
      } else if !ContainsAny(key, AcademicKeywords) {
        var cleaned := Clean(key);
        if cleaned != [] {
          nonAcademic := nonAcademic + [cleaned];
        }
      }
    }
  }

  // ---------------------------------------------------------------------------
  // Properties.

  lemma EntriesSnoc(f: string -> Entry, texts: seq<string>, x: string)
    ensures Entries(f, texts + [x]) == Entries(f, texts) + [f(x)]
  {
    assert (texts + [x])[..|texts|] == texts;
  }

  /** One more text visited by the fold. */
  lemma FeedEntriesStep(f: string -> Entry, st: Scan, texts: seq<string>, j: nat)
    requires j < |texts|
    ensures Feed(st, Entries(f, texts[..j + 1])) == Visit(Feed(st, Entries(f, texts[..j])), f(texts[j]))
  {
    assert texts[..j + 1] == texts[..j] + [texts[j]];
    EntriesSnoc(f, texts[..j], texts[j]);
    FeedSnoc(st, Entries(f, texts[..j]), f(texts[j]));
  }

  lemma {:induction false} EntriesAppend(f: string -> Entry, a: seq<string>, b: seq<string>)
    ensures Entries(f, a + b) == Entries(f, a) + Entries(f, b)
    decreases |b|
  {
    if b == [] {
      assert a + b == a;
    } else {
      var init := b[..|b| - 1];
      EntriesAppend(f, a, init);
      assert a + b == (a + init) + [b[|b| - 1]];
      EntriesSnoc(f, a + init, b[|b| - 1]);
    }
  }

  lemma KeysSnoc(es: seq<Entry>, e: Entry)
    ensures Keys(es + [e]) == Keys(es) + {e.key}
  {
    assert (es + [e])[..|es|] == es;
  }

  lemma FeedSnoc(st: Scan, es: seq<Entry>, e: Entry)
    ensures Feed(st, es + [e]) == Visit(Feed(st, es), e)
  {
    assert (es + [e])[..|es|] == es;
  }

  /** The fold's state is the reference output, and its `seen` set holds exactly the keys visited. */
  lemma {:induction false} FeedIsReference(es: seq<Entry>)
    ensures Feed(Start, es) == Scan(Keys(es), Reference(es))
    decreases |es|
  {
    if es != [] {
      var init, last := es[..|es| - 1], es[|es| - 1];
      FeedIsReference(init);
      var firsts := Firsts(init);
      if last.key !in Keys(init) {
        var f := firsts + [last];
        assert f[..|f| - 1] == firsts;
        assert Firsts(es) == f;
        assert CompanyTexts(f) == CompanyTexts(firsts) + (if last.cls == Company then [last.company] else []);
        assert NonAcademicTexts(f) == NonAcademicTexts(firsts)
          + (if last.cls == NonAcademicOther && last.cleaned != [] then [last.cleaned] else []);
      } else {
        assert Firsts(es) == firsts + [];
        assert Firsts(es) == firsts;
        assert Keys(es) == Keys(init);
        assert Feed(Start, es) == Feed(Start, init);
      }
    }
  }

  /** Feeding a concatenation is feeding its parts one after the other. */
  lemma {:induction false} FeedAppend(st: Scan, a: seq<Entry>, b: seq<Entry>)
    ensures Feed(st, a + b) == Feed(Feed(st, a), b)
    decreases |b|
  {
    if b == [] {
      assert a + b == a;
    } else {
      var b' := b[..|b| - 1];
      assert (a + b)[..|a + b| - 1] == a + b';
      FeedAppend(st, a, b');
    }
  }

  /** Dedup gate: an entry whose key was already seen changes nothing. */
  lemma RepeatIsIgnored(es: seq<Entry>, e: Entry)
    requires e.key in Keys(es)
    ensures Feed(Start, es + [e]) == Feed(Start, es)
  {
    FeedIsReference(es);
    FeedSnoc(Start, es, e);
  }

  /** Keys only grow: an entry seen before stays seen. */
  lemma {:induction false} KeysAppend(a: seq<Entry>, b: seq<Entry>)
    ensures Keys(a + b) == Keys(a) + Keys(b)
    decreases |b|
  {
    if b == [] {
      assert a + b == a;
    } else {
      var b' := b[..|b| - 1];
      assert (a + b)[..|a + b| - 1] == a + b';
      KeysAppend(a, b');
    }
  }

  /** The texts' keys are the keys of their entries. */
  lemma {:induction false} EntriesKeys(f: string -> Entry, texts: seq<string>)
    ensures Keys(Entries(f, texts)) == set t | t in texts :: f(t).key
    decreases |texts|
  {
    if texts != [] {
      var init, last := texts[..|texts| - 1], texts[|texts| - 1];
      EntriesKeys(f, init);
      assert texts == init + [last];
      assert (set t | t in texts :: f(t).key) == (set t | t in init :: f(t).key) + {f(last).key};
    }
  }

  lemma KeysOfTexts(texts: seq<string>)
    ensures Keys(Entries(Describe, texts)) == set t | t in texts :: Key(t)
  {
    EntriesKeys(Describe, texts);
  }

  /** A later affiliation whose key matches an earlier one, even under another
      author, contributes nothing to the record's lists. */
  lemma RepeatAnywhereIsIgnored(before: seq<string>, x: string, after: seq<string>)
    requires exists t :: t in before && Key(t) == Key(x)
    ensures ClassifyTexts(before + [x] + after) == ClassifyTexts(before + after)
  {
    var a, b := Entries(Describe, before), Entries(Describe, after);
    KeysOfTexts(before);
    EntriesSnoc(Describe, before, x);
    EntriesAppend(Describe, before + [x], after);
    EntriesAppend(Describe, before, after);
    assert Describe(x).key in Keys(a);
    FeedAppend(Start, a + [Describe(x)], b);
    FeedAppend(Start, a, b);
    RepeatIsIgnored(a, Describe(x));
  }

  lemma {:induction false} KeysContain(es: seq<Entry>)
    ensures forall k :: 0 <= k < |es| ==> es[k].key in Keys(es)
    decreases |es|
  {
    if es != [] {
      var init := es[..|es| - 1];
      KeysContain(init);
      assert forall k :: 0 <= k < |init| ==> init[k] == es[k];
    }
  }

  /** Appending only already-seen entries changes nothing. */
  lemma {:induction false} RepeatsAreIgnored(es: seq<Entry>, again: seq<Entry>)
    requires forall k :: 0 <= k < |again| ==> again[k].key in Keys(es)
    ensures Feed(Start, es + again) == Feed(Start, es)
    decreases |again|
  {
    if again == [] {
      assert es + again == es;
    } else {
      var init, last := again[..|again| - 1], again[|again| - 1];
      assert forall k :: 0 <= k < |init| ==> init[k] == again[k];
      RepeatsAreIgnored(es, init);
      KeysAppend(es, init);
      assert es + again == (es + init) + [last];
      RepeatIsIgnored(es + init, last);
    }
  }

  /** Listing a record's affiliations twice gives the same lists as listing them once. */
  lemma DoubledRecord(texts: seq<string>)
    ensures ClassifyTexts(texts + texts) == ClassifyTexts(texts)
  {
    var es := Entries(Describe, texts);
    EntriesAppend(Describe, texts, texts);
    KeysContain(es);
    RepeatsAreIgnored(es, es);
  }

  /** Output order: later affiliations only ever append to both lists. */
  lemma {:induction false} OutputGrowsAtEnd(st: Scan, b: seq<Entry>)
    ensures var x, y := st.out, Feed(st, b).out;
      && |x.companies| <= |y.companies| && y.companies[..|x.companies|] == x.companies
      && |x.nonAcademic| <= |y.nonAcademic| && y.nonAcademic[..|x.nonAcademic|] == x.nonAcademic
    decreases |b|
  {
    if b != [] {
      OutputGrowsAtEnd(st, b[..|b| - 1]);
    }
  }

  /** The record's lists for a prefix of its affiliations are prefixes of its lists. */
  lemma OutputOrder(a: seq<string>, b: seq<string>)
    ensures var x, y := ClassifyTexts(a), ClassifyTexts(a + b);
      && |x.companies| <= |y.companies| && y.companies[..|x.companies|] == x.companies
      && |x.nonAcademic| <= |y.nonAcademic| && y.nonAcademic[..|x.nonAcademic|] == x.nonAcademic
  {
    EntriesAppend(Describe, a, b);
    FeedAppend(Start, Entries(Describe, a), Entries(Describe, b));
    OutputGrowsAtEnd(Feed(Start, Entries(Describe, a)), Entries(Describe, b));
  }

  lemma {:induction false} FirstsDistinct(es: seq<Entry>)
    ensures |Firsts(es)| == |Keys(es)|
    ensures Keys(Firsts(es)) == Keys(es)
    decreases |es|
  {
    if es != [] {
      var init, last := es[..|es| - 1], es[|es| - 1];
      FirstsDistinct(init);
      if last.key !in Keys(init) {
        KeysSnoc(Firsts(init), last);
        assert Keys(es) == Keys(init) + {last.key};
      } else {
        assert Firsts(es) == Firsts(init) + [];
        assert Firsts(es) == Firsts(init);
        assert Keys(es) == Keys(init);
      }
    }
  }

  lemma {:induction false} ListsBound(es: seq<Entry>)
    ensures |CompanyTexts(es)| + |NonAcademicTexts(es)| <= |es|
    decreases |es|
  {
    if es != [] {
      ListsBound(es[..|es| - 1]);
    }
  }

  /** Each distinct affiliation key contributes to at most one of the two lists. */
  lemma OutputSize(authors: seq<seq<string>>)
    ensures var c := ExtractAffiliations(authors);
      |c.companies| + |c.nonAcademic| <= |set t | t in Flatten(authors) :: Key(t)|
  {
    var es := Entries(Describe, Flatten(authors));
    FirstsDistinct(es);
    ListsBound(Firsts(es));
    KeysOfTexts(Flatten(authors));
  }

  lemma InPrefix(es: seq<Entry>, e: Entry)
    requires es != [] && e in es[..|es| - 1]
    ensures e in es
  {
    var k :| 0 <= k < |es| - 1 && es[..|es| - 1][k] == e;
    assert es[k] == e;
  }

  /** Every entry of `Firsts(es)` is an entry of `es`. */
  lemma {:induction false} FirstsFrom(es: seq<Entry>)
    ensures forall k :: 0 <= k < |Firsts(es)| ==> Firsts(es)[k] in es
    decreases |es|
  {
    if es != [] {
      var init := es[..|es| - 1];
      FirstsFrom(init);
      var f := Firsts(es);
      forall k | 0 <= k < |f| ensures f[k] in es {
        if k < |Firsts(init)| {
          assert f[k] == Firsts(init)[k];
          InPrefix(es, f[k]);
        }
      }
    }
  }

  /** Provenance carries over from `Firsts(es)` to `es`. */
  lemma FromFirsts(es: seq<Entry>, x: string)
    ensures FromCompany(Firsts(es), x) ==> FromCompany(es, x)
    ensures FromNonAcademic(Firsts(es), x) ==> FromNonAcademic(es, x)
  {
    FirstsFrom(es);
    var f := Firsts(es);
    if FromCompany(f, x) {
      var e :| e in f && e.cls == Company && x == e.company;
      var k :| 0 <= k < |f| && f[k] == e;
    }
    if FromNonAcademic(f, x) {
      var e :| e in f && e.cls == NonAcademicOther && x == e.cleaned != [];
      var k :| 0 <= k < |f| && f[k] == e;
    }
  }

  /** `x` is the company text of a company entry of `es`. */
  predicate FromCompany(es: seq<Entry>, x: string) {
    exists e :: e in es && e.cls == Company && x == e.company
  }

  /** `x` is the non-empty cleaned text of a non-academic entry of `es`. */
  predicate FromNonAcademic(es: seq<Entry>, x: string) {
    exists e :: e in es && e.cls == NonAcademicOther && x == e.cleaned != []
  }

  /** Every company text comes from a company entry. */
  lemma {:induction false} CompanyTextsFrom(es: seq<Entry>)
    ensures forall k :: 0 <= k < |CompanyTexts(es)| ==> FromCompany(es, CompanyTexts(es)[k])
    decreases |es|
  {
    if es != [] {
      var init, last := es[..|es| - 1], es[|es| - 1];
      CompanyTextsFrom(init);
      var c := CompanyTexts(es);
      forall k | 0 <= k < |c| ensures FromCompany(es, c[k]) {
        if k < |CompanyTexts(init)| {
          assert c[k] == CompanyTexts(init)[k];
          var e :| e in init && e.cls == Company && c[k] == e.company;
          InPrefix(es, e);
        } else {
          assert last in es;
        }
      }
    }
  }

  /** Every non-academic text comes from a non-academic entry with a non-empty cleaned text. */
  lemma {:induction false} NonAcademicTextsFrom(es: seq<Entry>)
    ensures forall k :: 0 <= k < |NonAcademicTexts(es)| ==> FromNonAcademic(es, NonAcademicTexts(es)[k])
    decreases |es|
  {
    if es != [] {
      var init, last := es[..|es| - 1], es[|es| - 1];
      NonAcademicTextsFrom(init);
      var n := NonAcademicTexts(es);
      forall k | 0 <= k < |n| ensures FromNonAcademic(es, n[k]) {
        if k < |NonAcademicTexts(init)| {
          assert n[k] == NonAcademicTexts(init)[k];
          var e :| e in init && e.cls == NonAcademicOther && n[k] == e.cleaned != [];
          InPrefix(es, e);
        } else {
          assert last in es;
        }
      }
    }
  }

  /** Every entry of `Entries(f, texts)` is `f` of one of the texts. */
  lemma {:induction false} EntriesFrom(f: string -> Entry, texts: seq<string>)
    ensures forall e :: e in Entries(f, texts) ==> exists t :: t in texts && e == f(t)
    decreases |texts|
  {
    if texts != [] {
      var init, last := texts[..|texts| - 1], texts[|texts| - 1];
      EntriesFrom(f, init);
      forall e | e in Entries(f, texts) ensures exists t :: t in texts && e == f(t) {
        if e in Entries(f, init) {
          var t :| t in init && e == f(t);
          assert t in texts;
        } else {
          assert e == f(last);
          assert last in texts;
        }
      }
    }
  }

  /** `x` is the stripped text of one of `texts` that mentions a company keyword. */
  predicate CompanyItem(texts: seq<string>, x: string) {
    exists t :: t in texts && Classify(Key(t)) == Company && x == Strip(t)
  }

  /** `x` is the non-empty cleanup of one of `texts` that mentions neither kind of keyword. */
  predicate NonAcademicItem(texts: seq<string>, x: string) {
    exists t :: t in texts && Classify(Key(t)) == NonAcademicOther && x == Clean(Key(t)) != []
  }

  lemma CompanyOrigin(texts: seq<string>, x: string)
    requires FromCompany(Entries(Describe, texts), x)
    ensures CompanyItem(texts, x)
  {
    EntriesFrom(Describe, texts);
    var e :| e in Entries(Describe, texts) && e.cls == Company && x == e.company;
    var t :| t in texts && e == Describe(t);
  }

  lemma NonAcademicOrigin(texts: seq<string>, x: string)
    requires FromNonAcademic(Entries(Describe, texts), x)
    ensures NonAcademicItem(texts, x)
  {
    EntriesFrom(Describe, texts);
    var e :| e in Entries(Describe, texts) && e.cls == NonAcademicOther && x == e.cleaned != [];
    var t :| t in texts && e == Describe(t);
  }

  /** The classification partition, stated on a whole record: every company item is
      the stripped text of an affiliation with a company keyword, and every
      non-academic item is the non-empty cleanup of an affiliation with neither a
      company nor an academic keyword. */
  lemma Partition(authors: seq<seq<string>>)
    ensures var c := ExtractAffiliations(authors);
      && (forall k :: 0 <= k < |c.companies| ==> CompanyItem(Flatten(authors), c.companies[k]))
      && (forall k :: 0 <= k < |c.nonAcademic| ==> NonAcademicItem(Flatten(authors), c.nonAcademic[k]))
  {
    var texts := Flatten(authors);
    var es := Entries(Describe, texts);
    var f := Firsts(es);
    var c := ExtractAffiliations(authors);
    CompanyTextsFrom(f);
    NonAcademicTextsFrom(f);
    forall k | 0 <= k < |c.companies| ensures CompanyItem(texts, c.companies[k]) {
      FromFirsts(es, c.companies[k]);
      CompanyOrigin(texts, c.companies[k]);
    }
    forall k | 0 <= k < |c.nonAcademic| ensures NonAcademicItem(texts, c.nonAcademic[k]) {
      FromFirsts(es, c.nonAcademic[k]);
      NonAcademicOrigin(texts, c.nonAcademic[k]);
    }
  }

  /** The keyword tests mean what they say: the class is decided by which keywords occur in the key. */
  lemma ClassifyMeaning(key: string)
    ensures Classify(key) == Company <==> exists q, i :: 0 <= q < |CompanyKeywords| && OccursAt(key, CompanyKeywords[q], i)
    ensures Classify(key) == Academic <==>
      (forall q, i :: 0 <= q < |CompanyKeywords| ==> !OccursAt(key, CompanyKeywords[q], i))
      && exists q, i :: 0 <= q < |AcademicKeywords| && OccursAt(key, AcademicKeywords[q], i)
  {
    ContainsAnyOccurs(key, CompanyKeywords);
    ContainsAnyOccurs(key, AcademicKeywords);
  }

  /** A reported non-academic text is non-empty, bounded and free of ASCII capitals. */
  lemma CleanedShape(text: string)
    requires Clean(Key(text)) != []
    ensures var n := Clean(Key(text));
      0 < |n| <= MaxLength + |Ellipsis| && NoUpper(n)
  {
  }
}
