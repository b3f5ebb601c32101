/** `fetch_pubmed_details`: the empty-identifier guard, the outcome of the one
    efetch request, and the loop that turns the parsed articles into result rows. */
module Fetch {
  import opened Text
  import opened EmailPattern
  import opened Classify

  /** One `PubmedArticle` of the fetched document, already parsed; a missing element is `None`. */
  datatype Article = Article(pmid: Option<string>, title: Option<string>, year: Option<string>, authors: seq<Author>)

  /** The row emitted for a qualifying article. */
  datatype Record = Record(
    pubmedId: string,
    title: string,
    publicationDate: string,
    nonAcademicAuthors: string,
    companyAffiliations: string,
    correspondingEmail: string)

  /** How the efetch request ended: one of the caught failures, or a parsed document. */
  datatype FetchResult =
    | Timeout
    | HttpError(status: int)
    | RequestError
    | XmlParseError
    | UnexpectedError
    | Document(articles: seq<Article>)

  const Separator := "; "
  const MissingTitle := ""
  const MissingYear := "Unknown"
  const MissingPmid := ""
  const MissingEmail := "N/A"

  /** An article yields a row when the author loop kept at least one affiliation. */
  predicate Emitted(a: Article) {
    Scan(a.authors).affiliations != []
  }

  /** The row built from an article and the tally of its authors. */
  function RecordOf(a: Article): Record {
    var t := Scan(a.authors);
    Record(a.pmid.GetOr(MissingPmid), a.title.GetOr(MissingTitle), a.year.GetOr(MissingYear),
           Join(t.names, Separator), Join(t.affiliations, Separator), t.email.GetOr(MissingEmail))
  }

  /** The rows produced by the article loop, in document order. */
  function Records(articles: seq<Article>): seq<Record>
    decreases |articles|
  {
    if articles == [] then []
    else
      var last := articles[|articles| - 1];
      Records(articles[..|articles| - 1]) + (if Emitted(last) then [RecordOf(last)] else [])
  }

  /** What `fetch_pubmed_details` returns: nothing for no identifiers, nothing when the
      request or the parse failed, and otherwise the rows of the parsed document. */
  function FetchDetails(pubmedIds: seq<string>, response: FetchResult): seq<Record> {
    if pubmedIds == [] then []
    else if response.Document? then Records(response.articles)
    else []
  }

  method FetchPubmedDetails(pubmedIds: seq<string>, response: FetchResult) returns (articles: seq<Record>)
    ensures pubmedIds == [] ==> articles == []
    ensures !response.Document? ==> articles == []
    ensures articles == FetchDetails(pubmedIds, response)
  {
    if pubmedIds == [] {
      return [];
    }
    if !response.Document? {
      // timeout, HTTP error, request error, XML parse error or anything else: reported, no rows
      return [];
    }
    var root := response.articles;
    articles := [];
    for n := 0 to |root|
      invariant articles == Records(root[..n])
    {
      var article := root[n];
      var title := article.title.GetOr(MissingTitle);
      var pubDate := article.year.GetOr(MissingYear);
      var pmid := article.pmid.GetOr(MissingPmid);

      var authorsInfo := article.authors;
      var nonAcademicAuthors: seq<string> := [];
      var companyAffiliations: seq<string> := [];
      var correspondingEmail: Option<string> := None;

      for m := 0 to |authorsInfo|
        invariant Tally(nonAcademicAuthors, companyAffiliations, correspondingEmail) == Scan(authorsInfo[..m])
      {
        var author := authorsInfo[m];
        var name := Strip(author.lastName.GetOr("") + " " + author.foreName.GetOr(""));
        var affiliation := Lower(author.affiliation.GetOr(""));
        if ContainsAny(affiliation, CompanyKeywords) {
          companyAffiliations := companyAffiliations + [affiliation];
          nonAcademicAuthors := nonAcademicAuthors + [name];
          var emailMatch := FirstEmail(affiliation);
          if correspondingEmail.None? && emailMatch.Some? {
            correspondingEmail := emailMatch;
          }
        }
        assert authorsInfo[..m + 1][..m] == authorsInfo[..m];
      }
      assert authorsInfo[..|authorsInfo|] == authorsInfo;

      if companyAffiliations != [] {
        articles := articles + [Record(pmid, title, pubDate,
                                       Join(nonAcademicAuthors, Separator),
                                       Join(companyAffiliations, Separator),
                                       correspondingEmail.GetOr(MissingEmail))];
      }
      assert root[..n + 1][..n] == root[..n];
    }
    assert root[..|root|] == root;
  }

  // ---------------------------------------------------------------------------
  // Properties of the result

  /** The rows are those of the qualifying articles, one each, in document order:
      the k-th row is built from the k-th qualifying article. Together with the
      contract of `SelectIndices`, there are never more rows than articles. */
  lemma {:induction false} RecordsSelection(articles: seq<Article>)
    ensures var ix := SelectIndices(articles, Emitted);
      |Records(articles)| == |ix| &&
      forall k :: 0 <= k < |ix| ==> Records(articles)[k] == RecordOf(articles[ix[k]])
    decreases |articles|
  {
    if articles != [] {
      var init := articles[..|articles| - 1];
      RecordsSelection(init);
      var ix0 := SelectIndices(init, Emitted);
      var ix := SelectIndices(articles, Emitted);
      forall k | 0 <= k < |ix0|
        ensures Records(articles)[k] == RecordOf(articles[ix[k]])
      {
        assert articles[ix0[k]] == init[ix0[k]];
      }
    }
  }

  /** An article yields a row exactly when one of its authors has a lower-cased
      affiliation holding a company keyword; in particular never when it has no authors. */
  lemma EmittedIff(a: Article)
    ensures Emitted(a) <==> exists i :: 0 <= i < |a.authors| && Qualifies(a.authors[i])
  {
    TallyNonEmptyIff(a.authors);
  }

  /** Each qualifying author's lower-cased affiliation appears in the row's
      affiliation column, and the author's name in its author column. */
  lemma QualifyingAuthorListed(a: Article, i: nat)
    requires i < |a.authors| && Qualifies(a.authors[i])
    ensures exists j: nat :: OccursAt(RecordOf(a).companyAffiliations, AffiliationText(a.authors[i]), j)
    ensures exists j: nat :: OccursAt(RecordOf(a).nonAcademicAuthors, AuthorName(a.authors[i]), j)
  {
    var t := Scan(a.authors);
    var ix := SelectIndices(a.authors, Qualifies);
    ScanAligned(a.authors);
    assert i in ix;
    var k :| 0 <= k < |ix| && ix[k] == i;
    assert t.affiliations[k] == AffiliationText(a.authors[i]);
    assert t.names[k] == AuthorName(a.authors[i]);
    assert RecordOf(a).companyAffiliations == Join(t.affiliations, Separator);
    assert RecordOf(a).nonAcademicAuthors == Join(t.names, Separator);
    JoinContainsEach(t.affiliations, Separator, k);
    JoinContainsEach(t.names, Separator, k);
  }

  /** "N/A" is not an email, so it never stands for a found one. */
  lemma MissingEmailIsNoEmail()
    ensures !IsEmail(MissingEmail)
  {
    if IsEmail(MissingEmail) {
      EmailHasAt(MissingEmail);
    }
  }

  /** The row's email is "N/A" exactly when no qualifying author's lower-cased
      affiliation holds an email; otherwise it is the leftmost-longest email of the
      affiliation of some qualifying author. */
  lemma RecordEmail(a: Article)
    ensures RecordOf(a).correspondingEmail == MissingEmail <==>
      forall i :: 0 <= i < |a.authors| && Qualifies(a.authors[i]) ==> FirstEmail(AffiliationText(a.authors[i])).None?
    ensures RecordOf(a).correspondingEmail != MissingEmail ==>
      exists i :: 0 <= i < |a.authors| && Qualifies(a.authors[i]) &&
                  exists j: nat :: FoundAt(AffiliationText(a.authors[i]), RecordOf(a).correspondingEmail, j)
  {
    var t := Scan(a.authors);
    MissingEmailIsNoEmail();
    if t.email.Some? {
      EmailFromQualifyingAuthor(a.authors);
      var k := ScanEmailSource(a.authors);
      var i := ScanKeptAuthor(a.authors, k);
      assert FirstEmail(AffiliationText(a.authors[i])).Some?;
    } else {
      forall i | 0 <= i < |a.authors| && Qualifies(a.authors[i])
        ensures FirstEmail(AffiliationText(a.authors[i])).None?
      {
        ScanEmailSomeFrom(a.authors, i);
      }
    }
  }

  /** Missing elements take their defaults: no title gives "", no year "Unknown", no PMID "". */
  lemma RecordDefaults(a: Article)
    ensures a.pmid.None? ==> RecordOf(a).pubmedId == ""
    ensures a.title.None? ==> RecordOf(a).title == ""
    ensures a.year.None? ==> RecordOf(a).publicationDate == "Unknown"
    ensures a.year.Some? ==> RecordOf(a).publicationDate == a.year.value
  {
  }

  // ---------------------------------------------------------------------------
  // A worked example

  const AcmeArticle := Article(Some("111"), None, None, [Author(None, None, Some("Acme Pharma Inc"))])
  const StateArticle := Article(Some("222"), None, None, [Author(None, None, Some("State University"))])

  /** Two identifiers; article 111 has one author at "Acme Pharma Inc", article 222
      one at "State University". Only article 111 yields a row, and it has no email. */
  lemma CompanyAndUniversityArticles()
    ensures FetchDetails(["111", "222"], Document([AcmeArticle, StateArticle])) == [RecordOf(AcmeArticle)]
    ensures RecordOf(AcmeArticle).pubmedId == "111" && RecordOf(AcmeArticle).correspondingEmail == MissingEmail
  {
    AcmeQualifies();
    StateDoesNotQualify();
    EmittedIff(AcmeArticle);
    EmittedIff(StateArticle);
    RecordsOfTwo(AcmeArticle, StateArticle);
    RecordEmail(AcmeArticle);
  }

  /** Two articles yield the row of each that is emitted, in order. */
  lemma RecordsOfTwo(a: Article, b: Article)
    ensures Records([a, b]) == (if Emitted(a) then [RecordOf(a)] else []) + (if Emitted(b) then [RecordOf(b)] else [])
  {
    assert [a, b][..1] == [a];
    assert [a][..0] == [];
    assert Records([a]) == Records([]) + (if Emitted(a) then [RecordOf(a)] else []);
  }

  /** An author whose lower-cased affiliation holds a company keyword qualifies. */
  lemma QualifiesByOccurrence(a: Author, w: nat, j: nat)
    requires w < |CompanyKeywords| && OccursAt(AffiliationText(a), CompanyKeywords[w], j)
    ensures Qualifies(a)
  {
    ContainsSpec(AffiliationText(a), CompanyKeywords[w]);
    ContainsAnyFromSpec(AffiliationText(a), CompanyKeywords, 0);
  }

  /** "Acme Pharma Inc" lower-cases to a text holding "pharma" and no `@`. */
  lemma AcmeQualifies()
    ensures Qualifies(AcmeArticle.authors[0])
    ensures FirstEmail(AffiliationText(AcmeArticle.authors[0])).None?
  {
    var x := AffiliationText(AcmeArticle.authors[0]);
    assert x == "acme pharma inc";
    assert OccursAt(x, CompanyKeywords[0], 5);
    QualifiesByOccurrence(AcmeArticle.authors[0], 0, 5);
    NoAtNoEmail(x);
  }

  /** "state university" has no `h`, `c` or `l`, so no company keyword occurs in it. */
  lemma StateDoesNotQualify()
    ensures !Qualifies(StateArticle.authors[0])
  {
    var y := AffiliationText(StateArticle.authors[0]);
    assert y == "state university";
    WithoutHCL(y);
  }
}
