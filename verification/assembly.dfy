/**
  The row-building loop of `extract_article_details`. The search summary and
  the per-article detail documents come from the network; here the summary
  is a value and the detail fetch is a function from PubMed id to what the
  fetch produced. Affiliation and email extraction are the models of the
  other modules.
*/
module Assembly {
  import opened Base
  import opened Text
  import opened Affiliations
  import opened Email

  /** The summary's `result` object: its `uids` list, and every other key's record. */
  datatype ResultSection = ResultSection(uids: Option<seq<string>>, records: map<string, map<string, string>>)

  /** What fetching and parsing one article's detail document yields. */
  datatype Fetch =
    | Unavailable                                            // the fetch failed or returned no bytes
    | Malformed                                              // bytes that are not well-formed XML
    | Parsed(authors: seq<seq<string>>, record: string)      // affiliation texts per author, and the serialized record

  /** Why the whole assembly is abandoned: an exception other than `KeyError` escapes the loop. */
  datatype Fault =
    | MalformedDocument(pmid: string)   // the XML parser raised
    | NotARecord(pmid: string)          // the id is the key "uids", whose value is a list, not a record

  /** One output row: the six CSV columns. */
  datatype Row = Row(pubmedId: string, title: string, pubDate: string, nonAcademic: string, companies: string, email: string)

  /** The key of the id list inside the `result` object. */
  const UidsKey: string := "uids"

  /** The fields a record needs to produce a row. */
  predicate Complete(details: map<string, string>) {
    "uid" in details && "title" in details && "pubdate" in details
  }

  /** The contribution of one uid: a row, nothing, or the exception that ends the loop. */
  function Outcome(section: ResultSection, fetch: string -> Fetch, pmid: string): (r: Result<Option<Row>, Fault>)
    ensures pmid != UidsKey && pmid !in section.records ==> r == Success(None)
    ensures pmid != UidsKey && pmid in section.records && !Complete(section.records[pmid]) ==> r == Success(None)
    ensures r.Success? && r.value.Some? ==>
      pmid in section.records && Complete(section.records[pmid])
      && r.value.value.pubmedId == section.records[pmid]["uid"]
      && r.value.value.title == section.records[pmid]["title"]
      && r.value.value.pubDate == section.records[pmid]["pubdate"]
    ensures r.Failure? <==>
              || (pmid == UidsKey && section.uids.Some?)
              || (pmid in section.records && Complete(section.records[pmid]) && fetch(pmid) == Malformed)
  {
    if pmid == UidsKey && section.uids.Some? then Failure(NotARecord(pmid))
    else if pmid !in section.records then Success(None)
    else
      var details := section.records[pmid];
      if !Complete(details) then Success(None)
      else
        match fetch(pmid)
        case Unavailable =>
          Success(Some(Row(details["uid"], details["title"], details["pubdate"], NotAvailable, NotAvailable, NotAvailable)))
        case Malformed => Failure(MalformedDocument(pmid))
        case Parsed(authors, record) =>
          var found := ExtractAffiliations(authors);
          Success(Some(Row(details["uid"], details["title"], details["pubdate"],
                           Join(", ", found.nonAcademic), Join(", ", found.companies), ExtractEmail(record))))
  }

  /** What each uid contributes. */
  type Step = string -> Result<Option<Row>, Fault>

  /** The loop over `uids`, stopping at the first exception. */
  function Collect(step: Step, uids: seq<string>): (r: Result<seq<Row>, Fault>)
    ensures r.Success? ==> |r.value| <= |uids|
    decreases |uids|
  {
    if uids == [] then Success([])
    else
      match Collect(step, uids[..|uids| - 1])
      case Failure(f) => Failure(f)
      case Success(rows) =>
        match step(uids[|uids| - 1])
        case Failure(f) => Failure(f)
        case Success(None) => Success(rows)
        case Success(Some(row)) => Success(rows + [row])
  }

  /** `extract_article_details` given the summary (`None` when it is missing, empty or has no `result`). */
  function ExtractArticleDetails(summary: Option<ResultSection>, fetch: string -> Fetch): (r: Result<seq<Row>, Fault>)
    ensures summary.None? ==> r == Success([])
    ensures summary.Some? && summary.value.uids.None? ==> r == Success([])
  {
    match summary
    case None => Success([])
    case Some(section) =>
      match section.uids
      case None => Success([])
      case Some(uids) => Collect(StepOf(section, fetch), uids)
  }

  /** Each uid's contribution for this summary and these fetches. */
  function StepOf(section: ResultSection, fetch: string -> Fetch): Step {
    pmid => Outcome(section, fetch, pmid)
  }

  // ---------------------------------------------------------------------------
  // Reference: keep each uid's row, in order.

  /** The rows of `uids` taken one by one, ignoring exceptions. */
  function Kept(step: Step, uids: seq<string>): (rows: seq<Row>)
    decreases |uids|
  {
    if uids == [] then []
    else
      (if Contributes(step, uids[0]) then [step(uids[0]).value.value] else []) + Kept(step, uids[1..])
  }

  /** No uid of `uids` raises. */
  predicate NoFault(step: Step, uids: seq<string>) {
    forall i :: 0 <= i < |uids| ==> step(uids[i]).Success?
  }

  /** Uid `i` raises and none before it does. */
  predicate FirstFault(step: Step, uids: seq<string>, i: int) {
    0 <= i < |uids| && step(uids[i]).Failure? && NoFault(step, uids[..i])
  }

  lemma {:induction false} KeptSnoc(step: Step, uids: seq<string>, u: string)
    ensures Kept(step, uids + [u]) == Kept(step, uids) + (if Contributes(step, u) then [step(u).value.value] else [])
    decreases |uids|
  {
    if uids != [] {
      assert (uids + [u])[1..] == uids[1..] + [u];
      KeptSnoc(step, uids[1..], u);
    }
  }

  /**
    The loop succeeds exactly when no uid raises, and then its rows are the
    kept rows in uid order; otherwise it reports the first uid that raises.
  */
  lemma {:induction false} CollectMeaning(step: Step, uids: seq<string>)
    ensures Collect(step, uids).Success? <==> NoFault(step, uids)
    ensures Collect(step, uids).Success? ==> Collect(step, uids).value == Kept(step, uids)
    ensures Collect(step, uids).Failure? ==>
      exists i :: FirstFault(step, uids, i) && Collect(step, uids).error == step(uids[i]).error
    decreases |uids|
  {
    if uids != [] {
      var n := |uids| - 1;
      var init := uids[..n];
      assert uids == init + [uids[n]];
      CollectMeaning(step, init);
      KeptSnoc(step, init, uids[n]);
      assert forall i :: 0 <= i < n ==> init[i] == uids[i];
      if Collect(step, init).Failure? {
        var i :| FirstFault(step, init, i) && Collect(step, init).error == step(init[i]).error;
        assert uids[..i] == init[..i];
        assert FirstFault(step, uids, i);
      } else if step(uids[n]).Failure? {
        assert uids[..n] == init;
        assert FirstFault(step, uids, n);
      }
    }
  }

  /** Every position moved one place on. */
  function Shift(at: seq<nat>): (r: seq<nat>)
    ensures |r| == |at| && forall j :: 0 <= j < |at| ==> r[j] == at[j] + 1
  {
    seq(|at|, j requires 0 <= j < |at| => at[j] + 1)
  }

  /** Whether uid `u` contributes a row. */
  predicate Contributes(step: Step, u: string) {
    step(u).Success? && step(u).value.Some?
  }

  /** The positions of `uids` that contribute a row, in increasing order. */
  function KeptAt(step: Step, uids: seq<string>): seq<nat>
    decreases |uids|
  {
    if uids == [] then []
    else (if Contributes(step, uids[0]) then [0] else []) + Shift(KeptAt(step, uids[1..]))
  }

  /** Row `j` is the row of the uid at position `at[j]`. */
  predicate RowsAt(step: Step, uids: seq<string>, rows: seq<Row>, at: seq<nat>) {
    |at| == |rows| && forall j :: 0 <= j < |at| ==> at[j] < |uids| && step(uids[at[j]]) == Success(Some(rows[j]))
  }

  predicate Increasing(at: seq<nat>) {
    forall j, j' :: 0 <= j < j' < |at| ==> at[j] < at[j']
  }

  /** Every position whose uid contributes a row is listed. */
  predicate Covers(step: Step, uids: seq<string>, at: seq<nat>) {
    forall i :: 0 <= i < |uids| && Contributes(step, uids[i]) ==> i in at
  }

  /**
    `rows` are the rows of `uids` at positions `at`: one row per listed
    position, positions strictly increasing, and every position whose uid
    yields a row is listed.
  */
  predicate Aligned(step: Step, uids: seq<string>, rows: seq<Row>, at: seq<nat>) {
    RowsAt(step, uids, rows, at) && Increasing(at) && Covers(step, uids, at)
  }

  lemma {:induction false} KeptRowsAt(step: Step, uids: seq<string>)
    ensures RowsAt(step, uids, Kept(step, uids), KeptAt(step, uids))
    decreases |uids|
  {
    if uids != [] {
      var tail := uids[1..];
      KeptRowsAt(step, tail);
      var rest := KeptAt(step, tail);
      var restRows := Kept(step, tail);
      var head: seq<nat> := if Contributes(step, uids[0]) then [0] else [];
      var at := KeptAt(step, uids);
      var rows := Kept(step, uids);
      assert at == head + Shift(rest);
      assert rows == (if Contributes(step, uids[0]) then [step(uids[0]).value.value] else []) + restRows;
      forall j | 0 <= j < |at| ensures at[j] < |uids| && step(uids[at[j]]) == Success(Some(rows[j])) {
        if j >= |head| {
          var k := j - |head|;
          assert at[j] == rest[k] + 1 && rows[j] == restRows[k];
          assert uids[rest[k] + 1] == tail[rest[k]];
        }
      }
    }
  }

  lemma {:induction false} KeptAtIncreasing(step: Step, uids: seq<string>)
    ensures Increasing(KeptAt(step, uids))
    ensures forall j :: 0 <= j < |KeptAt(step, uids)| ==> KeptAt(step, uids)[j] < |uids|
    decreases |uids|
  {
    if uids != [] {
      var rest := KeptAt(step, uids[1..]);
      KeptAtIncreasing(step, uids[1..]);
      var head: seq<nat> := if Contributes(step, uids[0]) then [0] else [];
      var at := KeptAt(step, uids);
      assert at == head + Shift(rest);
      forall j, j' | 0 <= j < j' < |at| ensures at[j] < at[j'] {
        assert at[j'] == rest[j' - |head|] + 1;
        if j >= |head| {
          assert at[j] == rest[j - |head|] + 1;
        }
      }
    }
  }

  lemma {:induction false} KeptAtCovers(step: Step, uids: seq<string>)
    ensures Covers(step, uids, KeptAt(step, uids))
    decreases |uids|
  {
    if uids != [] {
      var tail := uids[1..];
      var rest := KeptAt(step, tail);
      KeptAtCovers(step, tail);
      var head: seq<nat> := if Contributes(step, uids[0]) then [0] else [];
      var at := KeptAt(step, uids);
      assert at == head + Shift(rest);
      forall i | 0 <= i < |uids| && Contributes(step, uids[i]) ensures i in at {
        if i == 0 {
          assert at[0] == 0;
        } else {
          assert tail[i - 1] == uids[i];
          var j :| 0 <= j < |rest| && rest[j] == i - 1;
          assert at[|head| + j] == i;
        }
      }
    }
  }

  /** The kept rows are exactly the rows of the contributing uids, in uid order. */
  lemma {:induction false} KeptAligned(step: Step, uids: seq<string>)
    ensures Aligned(step, uids, Kept(step, uids), KeptAt(step, uids))
  {
    KeptRowsAt(step, uids);
    KeptAtIncreasing(step, uids);
    KeptAtCovers(step, uids);
  }

  /**
    For a summary with a uid list, the result is a failure exactly when some
    uid raises (and then it is the first such uid's), and otherwise its rows
    follow the uid list: one per contributing uid, in order.
  */
  lemma SummaryRows(section: ResultSection, fetch: string -> Fetch)
    requires section.uids.Some?
    ensures var r := ExtractArticleDetails(Some(section), fetch);
      var step := StepOf(section, fetch);
      var uids := section.uids.value;
      && (r.Success? <==> NoFault(step, uids))
      && (r.Success? ==> Aligned(step, uids, r.value, KeptAt(step, uids)))
      && (r.Failure? ==> exists i :: FirstFault(step, uids, i) && r.error == Outcome(section, fetch, uids[i]).error)
  {
    var step := StepOf(section, fetch);
    CollectMeaning(step, section.uids.value);
    KeptAligned(step, section.uids.value);
  }

  /** Once a uid raises after a clean prefix, the loop's result is that exception. */
  lemma {:induction false} CollectFirstFault(step: Step, uids: seq<string>, i: nat)
    requires i < |uids| && Collect(step, uids[..i]).Success? && step(uids[i]).Failure?
    ensures Collect(step, uids) == Failure(step(uids[i]).error)
    decreases |uids|
  {
    var n := |uids| - 1;
    if n == i {
      assert uids[..n] == uids[..i];
    } else {
      var init := uids[..n];
      assert init[..i] == uids[..i] && init[i] == uids[i];
      CollectFirstFault(step, init, i);
    }
  }

  /** One more uid visited by the loop without an exception. */
  lemma CollectStep(step: Step, uids: seq<string>, i: nat, rows: seq<Row>)
    requires i < |uids| && Collect(step, uids[..i]) == Success(rows) && step(uids[i]).Success?
    ensures step(uids[i]).value.None? ==> Collect(step, uids[..i + 1]) == Success(rows)
    ensures step(uids[i]).value.Some? ==> Collect(step, uids[..i + 1]) == Success(rows + [step(uids[i]).value.value])
  {
    assert uids[..i + 1][..i] == uids[..i];
  }

  /** A record whose detail fetch produced nothing gives a row of "N/A" columns. */
  lemma DegradedRow(section: ResultSection, fetch: string -> Fetch, pmid: string)
    requires pmid != UidsKey && pmid in section.records && Complete(section.records[pmid])
    requires fetch(pmid) == Unavailable
    ensures var d := section.records[pmid];
      Outcome(section, fetch, pmid) == Success(Some(Row(d["uid"], d["title"], d["pubdate"], NotAvailable, NotAvailable, NotAvailable)))
  {
  }

  /**
    A record with a parsed document gives a row whose email column is "N/A"
    exactly when the document holds no address, and whose two affiliation
    columns are the extracted lists joined with ", ".
  */
  lemma ParsedRow(section: ResultSection, fetch: string -> Fetch, pmid: string)
    requires pmid != UidsKey && pmid in section.records && Complete(section.records[pmid])
    requires fetch(pmid).Parsed?
    ensures var r := Outcome(section, fetch, pmid);
      var found := ExtractAffiliations(fetch(pmid).authors);
      && r.Success? && r.value.Some?
      && r.value.value.nonAcademic == Join(", ", found.nonAcademic)
      && r.value.value.companies == Join(", ", found.companies)
      && (r.value.value.email == NotAvailable <==> forall p, end :: !EmailMatch(Lower(fetch(pmid).record), p, end))
  {
    ExtractEmailNotAvailable(fetch(pmid).record);
  }

  /** `extract_article_details` as a loop over the uid list, the shape the source has. */
  method ExtractArticleDetailsLoop(summary: Option<ResultSection>, fetch: string -> Fetch)
    returns (r: Result<seq<Row>, Fault>)
    ensures r == ExtractArticleDetails(summary, fetch)
  {
    if summary.None? || summary.value.uids.None? {
      return Success([]);
    }
    var section := summary.value;
    var uids := section.uids.value;
    ghost var step := StepOf(section, fetch);
    var results: seq<Row> := [];
    var i := 0;
    while i < |uids|
      invariant 0 <= i <= |uids|
      invariant Collect(step, uids[..i]) == Success(results)
    {
      var pmid := uids[i];
      if pmid == UidsKey {
        CollectFirstFault(step, uids, i);
        return Failure(NotARecord(pmid));
      }
      if pmid !in section.records {
        assert step(pmid) == Success(None);
        CollectStep(step, uids, i, results);
      } else {
        var details := section.records[pmid];
        if !Complete(details) {
          assert step(pmid) == Success(None);
          CollectStep(step, uids, i, results);
        } else {
          match fetch(pmid)
          case Unavailable =>
            var row := Row(details["uid"], details["title"], details["pubdate"], NotAvailable, NotAvailable, NotAvailable);
            assert step(pmid) == Success(Some(row));
            CollectStep(step, uids, i, results);
            results := results + [row];
          case Malformed =>
            CollectFirstFault(step, uids, i);
            return Failure(MalformedDocument(pmid));
          case Parsed(authors, record) =>
            var found := ExtractAffiliations(authors);
            var row := Row(details["uid"], details["title"], details["pubdate"],
                           Join(", ", found.nonAcademic), Join(", ", found.companies), ExtractEmail(record));
            assert step(pmid) == Success(Some(row));
            CollectStep(step, uids, i, results);
            results := results + [row];
        }
      }
      i := i + 1;
    }
    assert uids[..i] == uids;
    return Success(results);
  }
}
