# PubMed affiliation and contact-email extraction, in Dafny

This project models the engine of `src/fetch_papers.py` that turns PubMed
records into CSV rows. The model covers three parts of it:

- **Affiliation classification** (`extract_affiliations`). Every author
  affiliation text is stripped and lower-cased. The lower-cased text is the
  de-duplication key; repeats are skipped. A text naming a company keyword is
  reported as a company affiliation, in its stripped, original-case form. A
  text with no academic keyword goes through a nine-step cleanup pipeline and
  a truncation to 200 characters plus `"..."`. If anything is left, it is
  reported as a non-academic affiliation.
- **Contact-email extraction** (`extract_email`). The serialized record is
  lower-cased and searched in three tiers:
  1. an address after a correspondence marker, on the same line;
  2. an address after the word "affiliation", on the same line;
  3. the first address anywhere.

  When no tier finds one, the result is `"N/A"`.
- **Row assembly** (`extract_article_details`). The loop walks the uid list
  of the search summary. It skips uids without a record and records without
  the `uid`, `title` or `pubdate` field. It builds one six-column row per
  remaining uid, and a row of `"N/A"` columns when the detail fetch gives
  nothing. The loop stops at the first exception other than `KeyError`.

Modules, one per file:

- `Base` (base.dfy) holds `Option` and `Result`.
- `Text` (text.dfy) models the Python string operations used: ASCII
  lower-casing, `strip`, `split`, `join` and substring search.
- `Cleanup` (cleanup.dfy) models the pipeline. Each `re.sub` becomes a scanner
  with the leftmost, non-overlapping semantics of Python's `re` for that
  pattern.
- `Affiliations` (affiliations.dfy) holds the classifier. It is written as a
  fold over the flattened affiliation list, as a loop with the source's
  shape, and as a declarative reference (first occurrence of each key,
  filtered by class); the fold is proved equal to the reference.
- `Email` (email.dfy) models the address pattern
  `[a-z0-9.\-+_]+@[a-z0-9.\-+_]+\.[a-z]+`, with greedy backtracking, and the
  lazy `.*?` marker searches. `.` does not cross a newline, so a marker only
  reaches an address on its own line.
- `Assembly` (assembly.dfy) holds the row loop. The search summary is a
  value. The detail fetch is a function from PubMed id to `Unavailable`,
  `Malformed` or `Parsed(authors, record)`.

The first cleanup step removes a trailing postal-address fragment. Its
pattern needs an ASCII capital (`[A-Z]`), but it runs on the lower-cased key,
so it never fires. `Cleanup.AddressCutIdleOnKey` proves this, and the model
keeps the step as written.

## Model

| member | source | states |
|---|---|---|
| Text.Lower | src/fetch_papers.py:400 | each ASCII capital becomes its lower-case letter and every other character is kept; the result has no capital, and text without capitals is returned unchanged |
| Text.Strip | src/fetch_papers.py:400 | the result is a contiguous block of the input, everything outside it is whitespace, and it neither starts nor ends with whitespace |
| Text.SplitJoin | src/fetch_papers.py:419 | splitting a blank-joined list of words gives the same list back |
| Text.Join | src/fetch_papers.py:381 | joining no pieces gives the empty text, and joining one piece gives that piece |
| Text.JoinSnoc | src/fetch_papers.py:381 | joining one more piece appends the separator and then the piece |
| Text.ContainsAnyOccurs | src/fetch_papers.py:406-408 | the alternation search succeeds exactly when one of the alternatives occurs somewhere in the text |
| Cleanup.StripAddress | src/fetch_papers.py:413 | the result is a prefix of the input; the cut is at the leftmost position where the rest of the text is a postal-address fragment; no earlier position starts one |
| Cleanup.AddressTailHasCapital | src/fetch_papers.py:413 | every text the address pattern matches contains an ASCII capital |
| Cleanup.StripAddressLowerCase | src/fetch_papers.py:400-413 | on text without capitals the address substitution returns its input |
| Cleanup.AddressCutIdleOnKey | src/fetch_papers.py:400-413 | on a lower-cased key the first pipeline step changes nothing |
| Cleanup.StripTrailingPunct | src/fetch_papers.py:416 | removes exactly the maximal block of commas and periods that ends at the end of the text or just before a final newline |
| Cleanup.CollapseWhitespace | src/fetch_papers.py:419 | the result splits into the same words as the input and adds no character except the blank |
| Cleanup.CollapseWhitespaceShape | src/fetch_papers.py:419 | the collapsed text is empty exactly when the input has no words, has no outer whitespace, and separates words by single blanks |
| Cleanup.FirstMatchMeaning | src/fetch_papers.py:422-425 | the alternative chosen at a position is the first one in pattern order that matches there, ignoring case, and none is chosen exactly when no alternative matches there |
| Cleanup.Erase | src/fetch_papers.py:422-425 | phrase deletion never lengthens the text and adds no character |
| Cleanup.EraseFromWithoutMatch | src/fetch_papers.py:422-425 | when no phrase occurs, deletion returns the text unchanged |
| Cleanup.EraseLeftmost | src/fetch_papers.py:422-425 | at the leftmost position where some alternative matches, the first matching alternative is deleted, with the whitespace after it when the pattern ends in `\s*`; the text before it is kept and the scan resumes behind the deleted part |
| Cleanup.CollapseDots | src/fetch_papers.py:428 | collapsing period pairs never lengthens the text and adds no character |
| Cleanup.CollapseDotsWithoutPair | src/fetch_papers.py:428 | without a period, optional whitespace, period sequence the text is unchanged |
| Cleanup.CollapseDotsLeftmost | src/fetch_papers.py:428 | the leftmost period, optional whitespace, period sequence becomes one period; the text before it is kept and the scan resumes after the second period |
| Cleanup.StripDots | src/fetch_papers.py:431 | the result is a block of the input with only periods outside it, and it neither starts nor ends with a period |
| Cleanup.DropBlank | src/fetch_papers.py:434 | the result is empty exactly when the input is whitespace only, and otherwise equals the input |
| Cleanup.CollapseCommas | src/fetch_papers.py:437 | collapsing comma runs never lengthens the text and adds no character |
| Cleanup.CollapseCommasWithoutPair | src/fetch_papers.py:437 | without a comma, optional whitespace, comma sequence the text is unchanged |
| Cleanup.CollapseCommasLeftmost | src/fetch_papers.py:437 | the leftmost comma, optional whitespace, comma run becomes one comma; the text before it is kept and the scan resumes after the last comma of the run |
| Cleanup.ApplyAllNoUpper | src/fetch_papers.py:410-437 | no pipeline step introduces a capital letter |
| Cleanup.Truncate | src/fetch_papers.py:440-441 | at most 203 characters; a text over 200 becomes its first 200 characters plus `"..."`; a shorter text is kept |
| Cleanup.Clean | src/fetch_papers.py:410-441 | the cleaned key has at most 203 characters, is cut exactly when the tidied text exceeds 200, and has no capital when the key has none |
| Affiliations.FeedIsReference | src/fetch_papers.py:393-446 | the scan's seen set is the set of keys visited, and its two lists are the reference: the first text of each key, filtered by class, in visiting order |
| Affiliations.ExtractAffiliations | src/fetch_papers.py:391-452 | the result equals the reference classification of the authors' flattened affiliation texts |
| Affiliations.ExtractAffiliationsLoop | src/fetch_papers.py:393-452 | the nested loop over authors and their affiliations computes the same two lists |
| Affiliations.VisitAffiliations | src/fetch_papers.py:398-451 | the inner loop over one author's affiliation texts leaves the seen set and both lists as the scan leaves them after those texts |
| Affiliations.VisitAffiliation | src/fetch_papers.py:400-446 | one visited text updates the seen set and lists exactly as one step of the scan |
| Affiliations.RepeatAnywhereIsIgnored | src/fetch_papers.py:402-404 | a text whose key occurred earlier can be removed without changing the output, wherever the later copy sits |
| Affiliations.DoubledRecord | src/fetch_papers.py:402-404 | classifying a list twice in a row gives the same output as classifying it once |
| Affiliations.FirstsDistinct | src/fetch_papers.py:395-404 | the first occurrences are one entry per distinct key |
| Affiliations.OutputOrder | src/fetch_papers.py:397-444 | more affiliation texts only append to both lists; earlier entries keep their order |
| Affiliations.OutputSize | src/fetch_papers.py:397-444 | the two lists together are no longer than the number of distinct keys |
| Affiliations.Partition | src/fetch_papers.py:406-446 | every company item is the stripped form of a text whose key names a company; every non-academic item is the non-empty cleaned key of a text with neither a company nor an academic keyword |
| Affiliations.ClassifyMeaning | src/fetch_papers.py:406-408 | a key is a company exactly when a company keyword occurs in it, and academic exactly when no company keyword but some academic keyword occurs |
| Affiliations.CleanedShape | src/fetch_papers.py:440-444 | a reported non-academic item is non-empty, at most 203 characters long, and has no capital letter |
| Email.DomainDot | src/fetch_papers.py:468 | finds the last dot before a letter in the range, the point greedy backtracking over the domain settles on |
| Email.EmailAtMeaning | src/fetch_papers.py:468 | an address match starts at a position exactly when the pattern can match there, and the reported end is the longest match |
| Email.EmailAtComplete | src/fetch_papers.py:468 | any match of the address pattern at a position is found |
| Email.AddressHasAt | src/fetch_papers.py:468 | a matched address contains `@` |
| Email.FirstEmailFrom | src/fetch_papers.py:468-470 | the first address is the leftmost position where the pattern matches, and none is found only when it matches nowhere |
| Email.SameLineEmail | src/fetch_papers.py:458-463 | the lazy `.*?` reaches the nearest address that starts on the marker's line, and reports none only when no address starts on that line |
| Email.MarkerAt | src/fetch_papers.py:458 | at one position the marker alternatives are tried in pattern order, and the first that is followed by an address wins |
| Email.MarkedFromMeaning | src/fetch_papers.py:458-465 | a marker search finds nothing exactly when no marker is followed by an address on its line, and otherwise reports the address after the leftmost such marker |
| Email.ChooseEmail | src/fetch_papers.py:458-472 | the span the three tiers choose is a match of the address pattern, and none is chosen only when the pattern matches nowhere in the text |
| Email.NotAvailableIffNoAddress | src/fetch_papers.py:455-472 | the result is `"N/A"` exactly when the text holds no address at all |
| Email.ExtractEmailNotAvailable | src/fetch_papers.py:455-472 | the record gives `"N/A"` exactly when its lower-cased text holds no address |
| Email.ExtractEmail | src/fetch_papers.py:455-472 | the result is `"N/A"` or a lower-case text containing `@` |
| Email.ReportedIsAddress | src/fetch_papers.py:458-470 | any reported address is a match of the address pattern found in the text, and is itself a full match |
| Email.FirstTierWins | src/fetch_papers.py:458-460 | once a correspondence marker is followed by an address on its line, the result is the address after the leftmost such marker |
| Email.SecondTierNext | src/fetch_papers.py:463-465 | without a first-tier hit, an affiliation marker followed by an address decides the result, and the leftmost one wins |
| Email.LeftmostFallback | src/fetch_papers.py:468-472 | without a marker hit, any reported address is the leftmost match in the text |
| Assembly.Outcome | src/fetch_papers.py:364-387 | a uid without a record, or with a record missing `uid`, `title` or `pubdate`, contributes nothing; a row's first three columns come from its record; the uid raises exactly when it is the key `uids` itself or its document is malformed XML |
| Assembly.DegradedRow | src/fetch_papers.py:375-383 | a complete record whose fetch produced nothing gives a row whose last three columns are `"N/A"` |
| Assembly.ParsedRow | src/fetch_papers.py:376-381 | a complete record with a parsed document gives a row of the joined affiliation lists, and its email column is `"N/A"` exactly when the document holds no address |
| Assembly.ExtractArticleDetails | src/fetch_papers.py:357-361 | a missing summary or one without a uid list gives no rows |
| Assembly.Collect | src/fetch_papers.py:363-389 | a successful loop gives at most one row per uid |
| Assembly.CollectMeaning | src/fetch_papers.py:363-389 | the loop succeeds exactly when no uid raises; then its rows are the contributing uids' rows, and otherwise its error is the first raising uid's |
| Assembly.CollectFirstFault | src/fetch_papers.py:377-387 | once a uid raises after a clean prefix, the whole loop fails with that error |
| Assembly.KeptAligned | src/fetch_papers.py:364-383 | the rows correspond one to one, in order, to the contributing uids, at increasing positions of the uid list |
| Assembly.SummaryRows | src/fetch_papers.py:357-389 | for a summary with a uid list, the result fails exactly when some uid raises, with the first such uid's error; otherwise the rows follow the uid list |
| Assembly.ExtractArticleDetailsLoop | src/fetch_papers.py:357-389 | the loop with the source's shape computes the same result |

## Left out

- Text.Lower: lower-cases ASCII letters only. Python's `str.lower` and `re.IGNORECASE` also fold non-ASCII letters, and some of them change length. Every contract that mentions lower case is about ASCII capitals.
- `\d` and `\s` are ASCII digits and Python's whitespace set; Unicode digits outside ASCII are not modelled.
- The network calls (`fetch_pubmed_articles`, `get_full_article_details`) and JSON decoding are left out. The summary is a value, and a uid's fetch is a deterministic function of the uid, so a repeated uid gets the same fetch result.
- XML parsing and serialization are left out. A parsed document is given as its affiliation texts per author, in document order (`.//Author`, then `.//AffiliationInfo/Affiliation`), together with its serialized text.
- An affiliation element without text (`affiliation.text` is `None`, which raises `AttributeError`) is not modelled; every affiliation is a string.
- Summary field values that are not strings, and a `result` or `uids` entry of the wrong JSON type, are not modelled. The only non-record key modelled is `uids`, which raises when visited as a uid.
- The debug `print` calls and the `"Academic Institution"` assignment (line 446) have no effect on the output and are left out.
- Affiliations.Partition: states that each list item comes from an affiliation text of one class, so no text feeds both lists. It does not state that the two lists share no string: they can, because phrase deletion may turn a non-academic key such as `pfdepartment of izer` into `pfizer`, which a company text `pfizer` also yields.
- `save_to_csv`, the command-line entry point in `main.py`, and the commented-out earlier drafts in the source are not part of this model.

Two behaviours of the code are easy to misread:

- A company affiliation is reported as the whole stripped affiliation text (line 407), not only its company part.
- A row of `"N/A"` columns appears only when the detail fetch returns nothing (lines 376 and 382-383). An XML parse error at line 377 is not a `KeyError`, so it escapes the loop and ends the whole call; the model returns `Failure(MalformedDocument(pmid))`.
