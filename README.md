# pubmed-paper-fetcher, modelled in Dafny

The program searches PubMed for a term, fetches the summary record of every
id found, flags authors whose affiliation looks commercial and writes a
report as CSV or JSON. This project models the logic of
`src/pubmed_fetcher/main.py` that sits between the network and the file
system, and proves properties about it:

- `Classifier` models `extract_company_authors`. An author is
  company-affiliated when its ASCII-lower-cased affiliation is non-empty and
  contains one of `inc`, `ltd`, `pharma`, `biotech` or `company` as a
  substring. Names and lower-cased affiliations of those authors are
  appended to two parallel lists. The method `ExtractCompanyAuthors` keeps
  the source's loop. It is proved equal to the function `CompanyAuthors`, and
  the lemmas are about that function.
- `Pipeline` models `process_papers`. The lookup `fetch_paper_details` is a
  parameter `string -> Option<Record>`. `None` stands for a failed request and
  an `IsEmpty` record stands for `{}`. Both are skipped, as `not paper_data`
  skips them. Missing keys get their defaults, and the two joined fields get
  the sentinel `"N/A"` when the list is empty. The method `ProcessPapers`
  keeps the loop and is proved equal to the function `Process`.
- `Report` models the decisions of `save_results`: empty results, the two
  recognised formats, the unknown format, and the JSON file name
  `filename.replace(".csv", ".json")`. The result is an `Action` value that
  says which write would happen.
- `Text` holds ASCII `str.lower`, the substring test `t in s`,
  `sep.join(xs)` and the replace-all of `str.replace`, with their lemmas.
- `Wrappers` holds `Option` and `Result`.

One behaviour of the code is modelled as written. `", ".join(company_authors)`
raises `TypeError` when a selected author has no `"name"` key, because
`author.get("name")` is then `None`. That exception leaves `process_papers`.
So `BuildRow` returns `None` in that case. `Process` and `ProcessPapers`
return `Failure(id)` for the first id whose row raises. `ProcessCorrect`
states when this happens.

One would expect both joined fields to be the sentinel exactly when no
company author is found. The code also gives the sentinel for the names
field when the only selected author is named `"N/A"`
(`AuthorsFieldSentinelAmbiguous`). For the affiliations field the sentinel
occurs exactly when the list is empty, because a lower-cased join cannot
spell `"N/A"` (`AffiliationsFieldSentinel`).

## Model

| member | source | states |
|---|---|---|
| `Classifier.ExtractCompanyAuthors` | src/pubmed_fetcher/main.py:34-43 | the loop's two output lists are exactly those of `CompanyAuthors` on the given authors |
| `Classifier.CompanyAuthors` | src/pubmed_fetcher/main.py:36-43 | the two lists have equal length, at most the number of authors; every returned affiliation is lower-case and passes the keyword test |
| `Classifier.SelectedPositions` | src/pubmed_fetcher/main.py:38-40 | strictly increasing positions of authors, each company-affiliated, missing none of them: an author is selected iff its lower-cased affiliation is non-empty and holds a keyword |
| `Classifier.CompanyAuthorsAligned` | src/pubmed_fetcher/main.py:38-42 | entry j of both lists comes from the j-th selected author in input order (its name, its lower-cased affiliation), so the names are a subsequence of the input names |
| `Classifier.IsCompanyAuthorIgnoresCase` | src/pubmed_fetcher/main.py:39-40 | two affiliations that differ only in letter case are selected alike |
| `Classifier.CompanyAuthorsIgnoresCase` | src/pubmed_fetcher/main.py:38-42 | changing the case of every affiliation leaves both output lists unchanged |
| `Classifier.ReturnedAffiliationsStable` | src/pubmed_fetcher/main.py:39-42 | lower-casing a returned affiliation again leaves it unchanged |
| `Classifier.KeywordAt` | src/pubmed_fetcher/main.py:40 | a keyword occurring anywhere in a string makes it a company affiliation |
| `Classifier.PrincetonIsCompany` | src/pubmed_fetcher/main.py:40 | "Princeton" is selected through the substring "inc": the match is not by whole word |
| `Classifier.UpperCaseBiotechIsCompany` | src/pubmed_fetcher/main.py:39-40 | "BIOTECH Corp" is selected: matching happens after lower-casing |
| `Classifier.LtdCoIsCompany` | src/pubmed_fetcher/main.py:40 | "LtdCo" is selected through "ltd" |
| `Classifier.EmptyAffiliationNotCompany` | src/pubmed_fetcher/main.py:39-40 | a missing or empty affiliation is never selected |
| `Classifier.MitIsNotCompany` | src/pubmed_fetcher/main.py:40 | an affiliation holding no keyword ("MIT") is not selected |
| `Text.Lower` | src/pubmed_fetcher/main.py:39 | lower-casing keeps the length, maps each character by ASCII lower-casing and leaves no upper-case letter |
| `Text.LowerOfLower` | src/pubmed_fetcher/main.py:39 | a string with no upper-case letter is its own lower-casing |
| `Text.LowerIdempotent` | src/pubmed_fetcher/main.py:39 | lower-casing twice is lower-casing once |
| `Text.EqualIgnoringCaseIffSameLower` | src/pubmed_fetcher/main.py:39 | two strings are equal up to case iff their lower-casings are equal |
| `Text.ReplaceAllAbsent` | src/pubmed_fetcher/main.py:88 | replacing a pattern that does not occur leaves the string unchanged |
| `Text.JoinLower` | src/pubmed_fetcher/main.py:69 | joining lower-case strings with a lower-case separator gives a lower-case string |
| `Pipeline.AllNames` | src/pubmed_fetcher/main.py:68 | the names convert to strings iff none is missing, and then keep their order |
| `Pipeline.AuthorsField` | src/pubmed_fetcher/main.py:68 | the names field is "N/A" for no names, and its construction raises iff some selected name is missing |
| `Pipeline.AffiliationsFieldSentinel` | src/pubmed_fetcher/main.py:69 | for lower-case affiliations the field is "N/A" iff the list is empty |
| `Pipeline.AuthorsFieldSentinelAmbiguous` | src/pubmed_fetcher/main.py:68 | the names field is "N/A" for no names, and also for one author named "N/A" |
| `Pipeline.BuildRow` | src/pubmed_fetcher/main.py:56-71 | building a row raises iff some company-affiliated author has no name; otherwise the row carries the id |
| `Pipeline.BuildRowFields` | src/pubmed_fetcher/main.py:56-70 | title and date default to "N/A" and email to ""; the affiliations field is "N/A" iff nothing was selected, else the join of the selected affiliations; the names field is "N/A" when nothing was selected, else the join of the selected names |
| `Pipeline.RetainedIds` | src/pubmed_fetcher/main.py:50-54 | the ids kept are at most the input ids, and an id is kept iff it is an input id whose record is present and non-empty |
| `Pipeline.RetainedPositions` | src/pubmed_fetcher/main.py:50-54 | strictly increasing input positions, each holding an id whose record is present and non-empty, missing none of them |
| `Pipeline.RetainedIdsInOrder` | src/pubmed_fetcher/main.py:50-54 | the kept ids are the ids at those positions, in input order, a repeated id once per occurrence |
| `Pipeline.ProcessCorrect` | src/pubmed_fetcher/main.py:46-73 | the run succeeds iff every kept id's row builds; then there is exactly one row per kept id, in input order, each built from that id's record and carrying that id; otherwise it fails at the first kept id whose row raises |
| `Pipeline.ProcessFailureFinal` | src/pubmed_fetcher/main.py:50-71 | once a row has raised, later ids do not change the outcome |
| `Pipeline.ProcessPapers` | src/pubmed_fetcher/main.py:46-73 | the loop's result is exactly `Process` of the ids and the lookup |
| `Pipeline.RetainedSingleId` | src/pubmed_fetcher/main.py:50-71 | a single retained id yields exactly its own row |
| `Pipeline.UnretainedIdDropped` | src/pubmed_fetcher/main.py:51-54 | an id whose lookup fails or gives an empty record, appended after any ids, leaves the outcome unchanged |
| `Pipeline.SingleSelectedAuthorRow` | src/pubmed_fetcher/main.py:56-71 | a record whose only author is selected and named yields a row with that name, that affiliation and the defaulted fields |
| `Pipeline.AcmePharmaLower` | src/pubmed_fetcher/main.py:39-40 | "Acme Pharma" lower-cases to "acme pharma", which passes the keyword test |
| `Pipeline.AcmePharmaSelected` | src/pubmed_fetcher/main.py:38-42 | an author at "Acme Pharma" is selected with the affiliation "acme pharma" |
| `Pipeline.AcmePharmaFirstId` | src/pubmed_fetcher/main.py:50-71 | id "1" with one author at "Acme Pharma" yields its one row |
| `Pipeline.AcmePharmaScenario` | src/pubmed_fetcher/main.py:46-73 | ids "1" and "2", where "1" has one author at "Acme Pharma" and the lookup of "2" fails, give exactly one row, for "1", with that name and "acme pharma" |
| `Report.JsonFileName` | src/pubmed_fetcher/main.py:88 | the JSON name contains no ".csv", and a name without ".csv" is kept as it is |
| `Report.SaveAction` | src/pubmed_fetcher/main.py:76-94 | no write iff the results are empty; an invalid format (no write) iff the results are non-empty and the format is neither "csv" nor "json"; a CSV write iff non-empty and "csv", to the name as given; a JSON write goes to the replaced name |
| `Report.StartsWithBeforeReplace` | src/pubmed_fetcher/main.py:88 | the replaced name starts with a dot-free text only if the original does |
| `Report.NoCsvAfterReplace` | src/pubmed_fetcher/main.py:88 | after replacing every ".csv" by ".json" no ".csv" remains |
| `Report.NoCsvAfterJson` | src/pubmed_fetcher/main.py:88 | a substituted ".json" placed before text without ".csv" does not create one |
| `Report.NoCsvAfterChar` | src/pubmed_fetcher/main.py:88 | a character kept before text without ".csv" creates one only when it is '.' and the text starts with "csv" |
| `Report.CsvSuffixBecomesJson` | src/pubmed_fetcher/main.py:88 | a trailing ".csv" becomes ".json", with the rest of the name replaced as well |
| `Report.CsvSuffixOnly` | src/pubmed_fetcher/main.py:88 | a stem with no ".csv" followed by ".csv" becomes the stem followed by ".json" |
| `Report.JsonFileNameIdempotent` | src/pubmed_fetcher/main.py:88 | deriving the JSON name twice gives the same name as once |
| `Report.DefaultJsonFileName` | src/pubmed_fetcher/main.py:76-88 | the default "results.csv" becomes "results.json" |
| `Report.EveryOccurrenceReplaced` | src/pubmed_fetcher/main.py:88 | a stem followed by ".csv.csv" becomes the stem followed by ".json.json": every occurrence is replaced, not only the suffix |
| `Report.NoWriteCases` | src/pubmed_fetcher/main.py:78-94 | empty results write nothing whatever the format; the format "xml" writes nothing |

## Left out

- `fetch_pubmed_data` and `fetch_paper_details` (src/pubmed_fetcher/main.py:8-31): HTTP requests. The id list is an input, and the detail lookup is the parameter `fetch`.
- The CSV and JSON serialisation (`DataFrame.to_csv`, `json.dump`): foreign-library file I/O. The model returns the write that would happen and its file name.
- `main` (src/pubmed_fetcher/main.py:97-124): argument parsing and console output.
- All `print` diagnostics: console side effects.
- `str.lower` on non-ASCII letters: only ASCII case folding is modelled.
- Values of an unexpected type under a known key, such as an affiliation of `None` or a title that is not a string: the record fields are typed. A `None` affiliation makes `.lower()` raise in the source, and that case is not modelled.
- A record is a fixed set of four optional fields plus a count of other keys. Only the count matters, because `not paper_data` only asks whether the dictionary is empty.
- The default arguments of `save_results` (`filename="results.csv"`, `output_format="csv"`, src/pubmed_fetcher/main.py:76): `SaveAction` always takes both explicitly, as `main` always passes both; only the default file name's JSON form is stated (`DefaultJsonFileName`).
- Exceptions from `fetch_paper_details` (`requests.get` or `response.json()` raising, src/pubmed_fetcher/main.py:25,28), which would end `process_papers`: the `fetch` parameter is a total function, so it can neither raise nor answer differently for a repeated id.
- tests/test_main.py: its one test calls the live search endpoint.
