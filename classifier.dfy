/**
 * The affiliation classifier: `extract_company_authors` in
 * src/pubmed_fetcher/main.py. An author is company-affiliated when the
 * lower-cased affiliation is non-empty and contains one of a fixed set of
 * keywords as a substring.
 */
module Classifier {
  import opened Wrappers
  import opened Text

  /** The commercial keywords, tested as substrings of the lower-cased affiliation. */
  const Keywords: seq<string> := ["inc", "ltd", "pharma", "biotech", "company"]

  /**
   * An author entry of a summary record. A missing "name" key is `None`;
   * a missing "affiliation" key reads as the empty string.
   */
  datatype Author = Author(name: Option<string>, affiliation: string)

  /** `any(keyword in affiliation for keyword in Keywords)`. */
  predicate HasKeyword(affiliation: string) {
    exists k :: 0 <= k < |Keywords| && Contains(affiliation, Keywords[k])
  }

  /** The test applied to an already lower-cased affiliation. */
  predicate IsCompanyAffiliation(affiliation: string) {
    affiliation != [] && HasKeyword(affiliation)
  }

  predicate IsCompanyAuthor(a: Author) {
    IsCompanyAffiliation(Lower(a.affiliation))
  }

  /** The two parallel lists the classifier returns. */
  datatype Selection = Selection(names: seq<Option<string>>, affiliations: seq<string>)

  /**
   * What the classifier computes, written over the list of authors: the
   * selection for all but the last author, extended by the last one when it
   * is company-affiliated.
   */
  function CompanyAuthors(authors: seq<Author>): (r: Selection)
    ensures |r.names| == |r.affiliations| <= |authors|
    ensures forall j :: 0 <= j < |r.affiliations| ==>
              IsLower(r.affiliations[j]) && IsCompanyAffiliation(r.affiliations[j])
    decreases |authors|
  {
    if authors == [] then Selection([], [])
    else
      var last := authors[|authors| - 1];
      var prev := CompanyAuthors(authors[..|authors| - 1]);
      if IsCompanyAuthor(last)
      then Selection(prev.names + [last.name], prev.affiliations + [Lower(last.affiliation)])
      else prev
  }

  /**
   * Reference definition of which authors are kept: the positions of the
   * company-affiliated authors, in increasing order.
   */
  function SelectedPositions(authors: seq<Author>): (ps: seq<nat>)
    ensures forall j :: 0 <= j < |ps| ==> ps[j] < |authors| && IsCompanyAuthor(authors[ps[j]])
    ensures forall j, k :: 0 <= j < k < |ps| ==> ps[j] < ps[k]
    ensures forall i :: 0 <= i < |authors| && IsCompanyAuthor(authors[i]) ==> i in ps
    decreases |authors|
  {
    if authors == [] then []
    else
      var n := |authors| - 1;
      var prev := SelectedPositions(authors[..n]);
      assert forall i :: 0 <= i < n ==> authors[..n][i] == authors[i];
      if IsCompanyAuthor(authors[n]) then prev + [n] else prev
  }

  /**
   * The two output lists are index-aligned: entry j of both comes from the
   * j-th company-affiliated author, in input order, so the output names are
   * a subsequence of the input names.
   */
  lemma {:induction false} CompanyAuthorsAligned(authors: seq<Author>)
    ensures |CompanyAuthors(authors).names| == |SelectedPositions(authors)|
    ensures forall j :: 0 <= j < |SelectedPositions(authors)| ==>
              CompanyAuthors(authors).names[j] == authors[SelectedPositions(authors)[j]].name &&
              CompanyAuthors(authors).affiliations[j] == Lower(authors[SelectedPositions(authors)[j]].affiliation)
    decreases |authors|
  {
    if authors != [] {
      var n := |authors| - 1;
      var init := authors[..n];
      CompanyAuthorsAligned(init);
      var prev, ps := CompanyAuthors(init), SelectedPositions(init);
      var sel, qs := CompanyAuthors(authors), SelectedPositions(authors);
      forall j | 0 <= j < |ps|
        ensures sel.names[j] == authors[qs[j]].name
        ensures sel.affiliations[j] == Lower(authors[qs[j]].affiliation)
      {
        assert qs[j] == ps[j] && sel.names[j] == prev.names[j];
        assert sel.affiliations[j] == prev.affiliations[j];
        assert init[ps[j]] == authors[ps[j]];
      }
    }
  }

  /** Selection depends on the affiliation only through its lower-casing. */
  lemma IsCompanyAuthorIgnoresCase(a: Author, b: Author)
    requires EqualIgnoringCase(a.affiliation, b.affiliation)
    ensures IsCompanyAuthor(a) <==> IsCompanyAuthor(b)
  {
    EqualIgnoringCaseIffSameLower(a.affiliation, b.affiliation);
  }

  /**
   * Changing the letter case of affiliations does not change the result:
   * the same names are selected and the same lower-cased affiliations returned.
   */
  lemma {:induction false} CompanyAuthorsIgnoresCase(xs: seq<Author>, ys: seq<Author>)
    requires |xs| == |ys|
    requires forall i :: 0 <= i < |xs| ==>
               xs[i].name == ys[i].name && EqualIgnoringCase(xs[i].affiliation, ys[i].affiliation)
    ensures CompanyAuthors(xs) == CompanyAuthors(ys)
    decreases |xs|
  {
    if xs != [] {
      var n := |xs| - 1;
      CompanyAuthorsIgnoresCase(xs[..n], ys[..n]);
      IsCompanyAuthorIgnoresCase(xs[n], ys[n]);
      EqualIgnoringCaseIffSameLower(xs[n].affiliation, ys[n].affiliation);
    }
  }

  /** Every returned affiliation is already lower-case: lower-casing it again changes nothing. */
  lemma ReturnedAffiliationsStable(authors: seq<Author>, j: nat)
    requires j < |CompanyAuthors(authors).affiliations|
    ensures Lower(CompanyAuthors(authors).affiliations[j]) == CompanyAuthors(authors).affiliations[j]
  {
    LowerOfLower(CompanyAuthors(authors).affiliations[j]);
  }

  /** A keyword found at some position makes an affiliation a company one. */
  lemma KeywordAt(affiliation: string, k: nat, i: nat)
    requires k < |Keywords| && OccursAt(affiliation, Keywords[k], i)
    ensures IsCompanyAffiliation(affiliation)
  {
    assert |affiliation| >= |Keywords[k]| > 0;
  }

  /** Substring and case-insensitive matching: "Princeton" matches through "inc". */
  lemma PrincetonIsCompany()
    ensures IsCompanyAuthor(Author(Some("A"), "Princeton"))
  {
    var aff := Lower("Princeton");
    assert aff[2] == 'i' && aff[3] == 'n' && aff[4] == 'c';
    assert aff[2..5] == "inc";
    KeywordAt(aff, 0, 2);
  }

  /** "BIOTECH Corp" matches through "biotech". */
  lemma UpperCaseBiotechIsCompany()
    ensures IsCompanyAffiliation(Lower("BIOTECH Corp"))
  {
    var aff := Lower("BIOTECH Corp");
    assert aff[0..7] == "biotech";
    KeywordAt(aff, 3, 0);
  }

  /** "LtdCo" matches through "ltd": not a whole-word match. */
  lemma LtdCoIsCompany()
    ensures IsCompanyAuthor(Author(Some("A"), "LtdCo"))
  {
    var aff := Lower("LtdCo");
    assert aff[0] == 'l' && aff[1] == 't' && aff[2] == 'd';
    assert aff[0..3] == "ltd";
    KeywordAt(aff, 1, 0);
  }

  /** An empty affiliation is never selected, whatever the name. */
  lemma EmptyAffiliationNotCompany(name: Option<string>)
    ensures !IsCompanyAuthor(Author(name, ""))
  {
  }

  /** An affiliation with no keyword, "MIT", is not selected. */
  lemma MitIsNotCompany()
    ensures !IsCompanyAuthor(Author(Some("A"), "MIT"))
  {
    var aff := Lower("MIT");
    assert aff[0] == 'm' && aff[1] == 'i' && aff[2] == 't';
    assert !OccursAt(aff, Keywords[0], 0);
    assert !OccursAt(aff, Keywords[1], 0);
  }

  /**
   * `extract_company_authors`: walks the authors and appends the name and the
   * lower-cased affiliation of each company-affiliated one to two lists.
   */
  method ExtractCompanyAuthors(authors: seq<Author>)
    returns (companyAuthors: seq<Option<string>>, companies: seq<string>)
    ensures Selection(companyAuthors, companies) == CompanyAuthors(authors)
  {
    companyAuthors, companies := [], [];
    for i := 0 to |authors|
      invariant Selection(companyAuthors, companies) == CompanyAuthors(authors[..i])
    {
      var author := authors[i];
      var affiliation := Lower(author.affiliation);
      assert authors[..i + 1][..i] == authors[..i];
      if affiliation != [] && HasKeyword(affiliation) {
        companyAuthors := companyAuthors + [author.name];
        companies := companies + [affiliation];
      }
    }
    assert authors[..|authors|] == authors;
  }
}
