/**
 * The pipeline: `process_papers` in src/pubmed_fetcher/main.py. For every
 * id, in order, look up its summary record, skip it when the record is
 * absent or empty, and otherwise build one report row from the record's
 * fields and the classifier's result. The network lookup
 * `fetch_paper_details` is a parameter.
 */
module Pipeline {
  import opened Wrappers
  import opened Text
  import opened Classifier

  /** The sentinel for a missing title or date and for "no company authors". */
  const NA: string := "N/A"

  /** The separator of the joined name and affiliation fields. */
  const Sep: string := ", "

  /**
   * A summary record as returned by the lookup: the four keys the pipeline
   * reads, each possibly missing, and the number of other keys it holds.
   */
  datatype Record = Record(
    title: Option<string>,
    pubdate: Option<string>,
    authors: Option<seq<Author>>,
    correspondence: Option<string>,
    otherKeys: nat)

  /** The record is the empty dictionary, which `not paper_data` rejects like `None`. */
  predicate IsEmpty(rec: Record) {
    rec.title.None? && rec.pubdate.None? && rec.authors.None? &&
    rec.correspondence.None? && rec.otherKeys == 0
  }

  /** One output row, field by field in the report's column order. */
  datatype Row = Row(
    pubmedId: string,
    title: string,
    publicationDate: string,
    nonAcademicAuthors: string,
    companyAffiliations: string,
    correspondingEmail: string)

  /**
   * The names as strings, or `None` when one of them is missing: `", ".join`
   * raises TypeError on a `None` element.
   */
  function AllNames(names: seq<Option<string>>): (r: Option<seq<string>>)
    ensures r.Some? <==> forall j :: 0 <= j < |names| ==> names[j].Some?
    ensures r.Some? ==> (|r.value| == |names| &&
              forall j :: 0 <= j < |names| ==> r.value[j] == names[j].value)
    decreases |names|
  {
    if names == [] then Some([])
    else
      match AllNames(names[1..])
      case None => None
      case Some(rest) => if names[0].Some? then Some([names[0].value] + rest) else None
  }

  /** The "Non-academic Author(s)" field, or `None` where building it raises. */
  function AuthorsField(names: seq<Option<string>>): (r: Option<string>)
    ensures names == [] ==> r == Some(NA)
    ensures r.None? <==> exists j :: 0 <= j < |names| && names[j].None?
  {
    if names == [] then Some(NA)
    else
      match AllNames(names)
      case None => None
      case Some(ns) => Some(Join(Sep, ns))
  }

  /** The "Company Affiliation(s)" field. */
  function AffiliationsField(affiliations: seq<string>): (field: string) {
    if affiliations == [] then NA else Join(Sep, affiliations)
  }

  /**
   * For lower-case affiliations, as the classifier returns, the field is the
   * sentinel exactly when the list is empty: a lower-case join can never
   * spell "N/A".
   */
  lemma AffiliationsFieldSentinel(affiliations: seq<string>)
    requires forall j :: 0 <= j < |affiliations| ==> IsLower(affiliations[j])
    ensures AffiliationsField(affiliations) == NA <==> affiliations == []
  {
    if affiliations != [] {
      JoinLower(Sep, affiliations);
      assert !IsLower(NA) by { assert IsUpper(NA[0]); }
    }
  }

  /**
   * The names field is the sentinel whenever no author was selected, but the
   * converse fails: one selected author named "N/A" gives the same field.
   */
  lemma AuthorsFieldSentinelAmbiguous()
    ensures AuthorsField([]) == Some(NA)
    ensures AuthorsField([Some(NA)]) == Some(NA)
  {
    assert [Some(NA)][1..] == [];
    assert [NA] + [] == [NA];
    assert AllNames([Some(NA)]) == Some([NA]);
  }

  /** Some company-affiliated author has no name. */
  predicate HasUnnamedCompanyAuthor(authors: seq<Author>) {
    exists i :: 0 <= i < |authors| && IsCompanyAuthor(authors[i]) && authors[i].name.None?
  }

  /** Builds the row of one present, non-empty record; `None` where the join raises. */
  function BuildRow(id: string, rec: Record): (r: Option<Row>)
    ensures r.None? <==> HasUnnamedCompanyAuthor(rec.authors.GetOr([]))
    ensures r.Some? ==> r.value.pubmedId == id
  {
    var authors := rec.authors.GetOr([]);
    var sel := CompanyAuthors(authors);
    CompanyAuthorsAligned(authors);
    match AuthorsField(sel.names)
    case None => None
    case Some(names) =>
      Some(Row(id, rec.title.GetOr(NA), rec.pubdate.GetOr(NA), names,
               AffiliationsField(sel.affiliations), rec.correspondence.GetOr("")))
  }

  /**
   * The fields of a built row: the defaults for missing keys, and the two
   * joined fields, which are the sentinel exactly when no author was
   * selected (for names: at least when none was selected) and otherwise the
   * join of the selected names and lower-cased affiliations.
   */
  lemma BuildRowFields(id: string, rec: Record)
    requires BuildRow(id, rec).Some?
    ensures var row := BuildRow(id, rec).value;
            var sel := CompanyAuthors(rec.authors.GetOr([]));
            && row.title == (if rec.title.Some? then rec.title.value else NA)
            && row.publicationDate == (if rec.pubdate.Some? then rec.pubdate.value else NA)
            && row.correspondingEmail == (if rec.correspondence.Some? then rec.correspondence.value else "")
            && (row.companyAffiliations == NA <==> sel.affiliations == [])
            && (sel.affiliations != [] ==> row.companyAffiliations == Join(Sep, sel.affiliations))
            && (sel.names == [] ==> row.nonAcademicAuthors == NA)
            && (sel.names != [] ==> row.nonAcademicAuthors == Join(Sep, AllNames(sel.names).value))
  {
    AffiliationsFieldSentinel(CompanyAuthors(rec.authors.GetOr([])).affiliations);
  }

  /** The lookup returned a record and it is not empty, so the id gets a row. */
  predicate Retained(id: string, fetch: string -> Option<Record>) {
    fetch(id).Some? && !IsEmpty(fetch(id).value)
  }

  /** Reference definition: the ids that get a row, in input order. */
  function RetainedIds(ids: seq<string>, fetch: string -> Option<Record>): (r: seq<string>)
    ensures |r| <= |ids|
    ensures forall x :: x in r <==> x in ids && Retained(x, fetch)
    decreases |ids|
  {
    if ids == [] then []
    else
      var n := |ids| - 1;
      assert ids == ids[..n] + [ids[n]];
      RetainedIds(ids[..n], fetch) + (if Retained(ids[n], fetch) then [ids[n]] else [])
  }

  /**
   * Reference definition of which ids get a row: their positions in the
   * input, in increasing order; a repeated id is kept once per occurrence.
   */
  function RetainedPositions(ids: seq<string>, fetch: string -> Option<Record>): (ps: seq<nat>)
    ensures forall j :: 0 <= j < |ps| ==> ps[j] < |ids| && Retained(ids[ps[j]], fetch)
    ensures forall j, k :: 0 <= j < k < |ps| ==> ps[j] < ps[k]
    ensures forall i :: 0 <= i < |ids| && Retained(ids[i], fetch) ==> i in ps
    decreases |ids|
  {
    if ids == [] then []
    else
      var n := |ids| - 1;
      var prev := RetainedPositions(ids[..n], fetch);
      assert forall i :: 0 <= i < n ==> ids[..n][i] == ids[i];
      if Retained(ids[n], fetch) then prev + [n] else prev
  }

  /**
   * The retained ids are the ids at the retained positions, in input order:
   * entry j is the id at the j-th position whose record is present and
   * non-empty.
   */
  lemma {:induction false} RetainedIdsInOrder(ids: seq<string>, fetch: string -> Option<Record>)
    ensures |RetainedIds(ids, fetch)| == |RetainedPositions(ids, fetch)|
    ensures forall j :: 0 <= j < |RetainedPositions(ids, fetch)| ==>
              RetainedIds(ids, fetch)[j] == ids[RetainedPositions(ids, fetch)[j]]
    decreases |ids|
  {
    if ids != [] {
      var n := |ids| - 1;
      var init := ids[..n];
      RetainedIdsInOrder(init, fetch);
      var prev, ps := RetainedIds(init, fetch), RetainedPositions(init, fetch);
      var kept, qs := RetainedIds(ids, fetch), RetainedPositions(ids, fetch);
      forall j | 0 <= j < |ps| ensures kept[j] == ids[qs[j]] {
        assert qs[j] == ps[j] && kept[j] == prev[j];
        assert init[ps[j]] == ids[ps[j]];
      }
    }
  }

  /**
   * What `process_papers` computes: the rows of the first n ids extended by
   * the row of id n, or the id whose row raised.
   */
  function Process(ids: seq<string>, fetch: string -> Option<Record>): (result: Result<seq<Row>, string>)
    decreases |ids|
  {
    if ids == [] then Success([])
    else
      var n := |ids| - 1;
      match Process(ids[..n], fetch)
      case Failure(bad) => Failure(bad)
      case Success(rows) =>
        if !Retained(ids[n], fetch) then Success(rows)
        else
          match BuildRow(ids[n], fetch(ids[n]).value)
          case None => Failure(ids[n])
          case Some(row) => Success(rows + [row])
  }

  /** Once building a row has raised, the rest of the ids change nothing. */
  lemma {:induction false} ProcessFailureFinal(ids: seq<string>, k: nat, fetch: string -> Option<Record>)
    requires k <= |ids|
    requires Process(ids[..k], fetch).Failure?
    ensures Process(ids, fetch) == Process(ids[..k], fetch)
    decreases |ids| - k
  {
    if k < |ids| {
      assert ids[..k + 1][..k] == ids[..k];
      ProcessFailureFinal(ids, k + 1, fetch);
    } else {
      assert ids[..k] == ids;
    }
  }

  /** The row an id gets, or `None` where building it raises. */
  function RowOf(id: string, fetch: string -> Option<Record>): (row: Option<Row>)
    requires Retained(id, fetch)
  {
    BuildRow(id, fetch(id).value)
  }

  /**
   * `process_papers` either returns one row per retained id, in input order,
   * each the row built from that id's record and carrying that id, or raises
   * at the first retained id whose row cannot be built; it raises exactly
   * when some retained id's row cannot be built.
   */
  lemma {:induction false} ProcessCorrect(ids: seq<string>, fetch: string -> Option<Record>)
    ensures var kept := RetainedIds(ids, fetch);
            Process(ids, fetch).Success? <==>
              forall j :: 0 <= j < |kept| ==> RowOf(kept[j], fetch).Some?
    ensures var kept := RetainedIds(ids, fetch);
            Process(ids, fetch).Success? ==>
              var rows := Process(ids, fetch).value;
              |rows| == |kept| &&
              forall j :: 0 <= j < |kept| ==>
                RowOf(kept[j], fetch) == Some(rows[j]) && rows[j].pubmedId == kept[j]
    ensures var kept := RetainedIds(ids, fetch);
            Process(ids, fetch).Failure? ==>
              exists j :: 0 <= j < |kept| && kept[j] == Process(ids, fetch).error &&
                RowOf(kept[j], fetch).None? &&
                forall k :: 0 <= k < j ==> RowOf(kept[k], fetch).Some?
    decreases |ids|
  {
    if ids != [] {
      var n := |ids| - 1;
      var prev := RetainedIds(ids[..n], fetch);
      var kept := RetainedIds(ids, fetch);
      ProcessCorrect(ids[..n], fetch);
      assert forall k :: 0 <= k < |prev| ==> kept[k] == prev[k];
      match Process(ids[..n], fetch)
      case Failure(bad) =>
        assert Process(ids, fetch) == Failure(bad);
      case Success(rows) =>
        if Retained(ids[n], fetch) {
          assert kept == prev + [ids[n]];
          match RowOf(ids[n], fetch)
          case None =>
            assert Process(ids, fetch) == Failure(ids[n]);
            assert kept[|prev|] == ids[n];
          case Some(row) =>
            assert Process(ids, fetch) == Success(rows + [row]);
            assert forall k :: 0 <= k < |prev| ==> (rows + [row])[k] == rows[k];
        } else {
          assert kept == prev;
        }
    }
  }

  /** An author at "Acme Pharma" is selected, with the affiliation lower-cased. */
  lemma AcmePharmaSelected(name: string)
    ensures CompanyAuthors([Author(Some(name), "Acme Pharma")]) ==
            Selection([Some(name)], ["acme pharma"])
  {
    var author := Author(Some(name), "Acme Pharma");
    AcmePharmaLower();
    assert IsCompanyAuthor(author);
    assert [author][..0] == [];
  }

  /** "Acme Pharma" lower-cases to "acme pharma", which holds the keyword "pharma". */
  lemma AcmePharmaLower()
    ensures Lower("Acme Pharma") == "acme pharma"
    ensures IsCompanyAffiliation("acme pharma")
  {
    var aff := "acme pharma";
    assert aff[5..11] == "pharma";
    KeywordAt(aff, 2, 5);
  }

  /**
   * Ids "1" and "2", where "1" has one author at "Acme Pharma" and the lookup
   * of "2" fails: exactly one row, for "1", naming that author and the
   * lower-cased affiliation.
   */
  lemma AcmePharmaScenario(fetch: string -> Option<Record>, rec: Record, name: string)
    requires fetch("1") == Some(rec) && rec.authors == Some([Author(Some(name), "Acme Pharma")])
    requires fetch("2") == None
    ensures Process(["1", "2"], fetch) ==
            Success([Row("1", rec.title.GetOr(NA), rec.pubdate.GetOr(NA), name, "acme pharma",
                         rec.correspondence.GetOr(""))])
  {
    var row := Row("1", rec.title.GetOr(NA), rec.pubdate.GetOr(NA), name, "acme pharma",
                   rec.correspondence.GetOr(""));
    AcmePharmaFirstId(fetch, rec, name);
    UnretainedIdDropped(fetch, ["1"], "2");
    assert ["1"] + ["2"] == ["1", "2"];
  }

  lemma AcmePharmaFirstId(fetch: string -> Option<Record>, rec: Record, name: string)
    requires fetch("1") == Some(rec) && rec.authors == Some([Author(Some(name), "Acme Pharma")])
    ensures Process(["1"], fetch) ==
            Success([Row("1", rec.title.GetOr(NA), rec.pubdate.GetOr(NA), name, "acme pharma",
                         rec.correspondence.GetOr(""))])
  {
    AcmePharmaSelected(name);
    SingleSelectedAuthorRow("1", rec, Author(Some(name), "Acme Pharma"), name, "acme pharma");
    RetainedSingleId(fetch, "1", BuildRow("1", rec).value);
  }

  /** An id whose lookup fails or gives an empty record adds no row, after any ids. */
  lemma UnretainedIdDropped(fetch: string -> Option<Record>, ids: seq<string>, id: string)
    requires !Retained(id, fetch)
    ensures Process(ids + [id], fetch) == Process(ids, fetch)
  {
    assert (ids + [id])[..|ids|] == ids;
  }

  /** A single retained id gives its own row. */
  lemma RetainedSingleId(fetch: string -> Option<Record>, id: string, row: Row)
    requires Retained(id, fetch) && RowOf(id, fetch) == Some(row)
    ensures Process([id], fetch) == Success([row])
  {
    var one: seq<string> := [id];
    assert one[..0] == [];
    assert Process(one[..0], fetch) == Success([]);
    assert [] + [row] == [row];
  }

  /** The row of a record whose only author is selected. */
  lemma SingleSelectedAuthorRow(id: string, rec: Record, a: Author, name: string, affiliation: string)
    requires rec.authors == Some([a])
    requires CompanyAuthors([a]) == Selection([Some(name)], [affiliation])
    ensures BuildRow(id, rec) == Some(Row(id, rec.title.GetOr(NA), rec.pubdate.GetOr(NA), name,
                                          affiliation, rec.correspondence.GetOr("")))
  {
    var names: seq<Option<string>> := [Some(name)];
    assert names[1..] == [];
    assert AllNames(names).value[0] == name;
    assert AllNames(names).value == [name];
  }

  /**
   * `process_papers`: the loop over the ids, appending one row per retained
   * id; an exception raised while building a row ends the run.
   */
  method ProcessPapers(paperIds: seq<string>, fetchPaperDetails: string -> Option<Record>)
    returns (result: Result<seq<Row>, string>)
    ensures result == Process(paperIds, fetchPaperDetails)
  {
    var results: seq<Row> := [];
    for i := 0 to |paperIds|
      invariant Process(paperIds[..i], fetchPaperDetails) == Success(results)
    {
      var paperId := paperIds[i];
      assert paperIds[..i + 1][..i] == paperIds[..i];
      var paperData := fetchPaperDetails(paperId);
      if paperData.None? || IsEmpty(paperData.value) {
        continue;
      }
      var rec := paperData.value;
      var companyAuthors, companies := ExtractCompanyAuthors(rec.authors.GetOr([]));
      var names := AuthorsField(companyAuthors);
      if names.None? {
        assert Process(paperIds[..i + 1], fetchPaperDetails) == Failure(paperId);
        ProcessFailureFinal(paperIds, i + 1, fetchPaperDetails);
        return Failure(paperId);
      }
      results := results + [Row(paperId, rec.title.GetOr(NA), rec.pubdate.GetOr(NA), names.value,
                                AffiliationsField(companies), rec.correspondence.GetOr(""))];
    }
    assert paperIds[..|paperIds|] == paperIds;
    return Success(results);
  }
}
