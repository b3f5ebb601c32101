# PubMed fetcher: article classification, modelled in Dafny

The PubMed fetcher looks up research papers and keeps those with at least one
author whose affiliation looks commercial. `fetch_pubmed_details` in
`pubmed_fetcher/fetch.py` works in four stages:

1. It returns nothing for an empty identifier list.
2. It requests and parses the article records.
3. For each article, it walks the authors. An author is "non-academic" when
   their lower-cased affiliation contains one of the company keywords as a
   substring. For each such author it keeps the name and the lower-cased
   affiliation, and it keeps the first email that its regular expression finds
   in these affiliations.
4. It emits one row per article that kept at least one affiliation.

This project models stages 1, 3 and 4, together with the outcome of stage 2,
in four modules:

- `Text` (`text.dfy`) holds the string operations the loop uses:
  - ASCII `str.lower()`;
  - `str.strip()`, following CPython's algorithm and Python's full `str.isspace` set;
  - the `in` substring test;
  - `str.join`.
- `EmailPattern` (`email.dfy`) holds the regular expression
  `[A-Za-z0-9._%+-]+@[A-Za-z0-9.-]+\.[A-Za-z]{2,}` as `re.search` runs it:
  - try each start position from left to right;
  - the local part must run up to the `@`;
  - the greedy domain part backtracks to the last `.` that is followed by two
    letters;
  - the top-level domain takes every letter after that `.`.

  `FirstEmail` is proved to return exactly the leftmost email in the text, and
  the longest one starting there.
- `Classify` (`classify.dfy`) holds the keyword lists, the per-author test and
  the author loop. The loop is written as a specification function over the
  authors: `Scan`, folding `Step`. The module proves the loop's properties:
  - the kept names and affiliations stay aligned, in author order;
  - the first email wins;
  - the academic keywords play no part in the classification.
- `Fetch` (`fetch.dfy`) holds the articles, the rows, the request outcome, and
  `FetchPubmedDetails`. That method runs the source's two nested loops,
  appending to the lists, and is proved equal to `FetchDetails`.
  Results about the rows are then proved for `FetchDetails`:
  - which articles are emitted;
  - in what order;
  - what each column holds;
  - the defaults.

Three facts about the code shape the model:

- Only the first affiliation of an author is read (`findtext` at line 93).
  Any further affiliations of the same author are never looked at.
- The affiliation stored in a row is the lower-cased text (line 93), not the
  original.
- The email is searched for in the lower-cased text (line 99), not in the
  original.

## Model

| member | source | states |
|---|---|---|
| Text.Lower | pubmed_fetcher/fetch.py:93 | lower-casing keeps the length, leaves no upper-case letter, and changes each character only by mapping an upper-case letter to its lower-case letter |
| Text.LowerConcat | pubmed_fetcher/fetch.py:93 | lower-casing a concatenation is the concatenation of the lower-cased parts |
| Text.LowerOfLower | pubmed_fetcher/fetch.py:93 | text without upper-case letters is left unchanged by lower-casing |
| Text.StripSpec | pubmed_fetcher/fetch.py:92 | `strip()` returns a slice of its input with only whitespace before and after it, and the slice neither starts nor ends with whitespace |
| Text.StripTrimmed | pubmed_fetcher/fetch.py:92 | text that neither starts nor ends with whitespace is returned unchanged by `strip()` |
| Text.ContainsSpec | pubmed_fetcher/fetch.py:95 | the substring test holds exactly when the word is some slice of the text |
| Text.JoinContainsEach | pubmed_fetcher/fetch.py:108-109 | every part occurs, as a slice, in the `"; "`-joined text |
| EmailPattern.LastDot | pubmed_fetcher/fetch.py:99 | the backtracking domain part settles on the largest position where `\.[A-Za-z]{2,}` matches, or on none when there is no such position |
| EmailPattern.MatchAtSound | pubmed_fetcher/fetch.py:99 | what the search finds at a start position is a whole email: a non-empty local part, `@`, a non-empty domain, `.`, then two or more letters |
| EmailPattern.MatchAtLongest | pubmed_fetcher/fetch.py:99 | every email starting at a position is found there, and none is longer than the one found |
| EmailPattern.SearchFromLeftmost | pubmed_fetcher/fetch.py:99 | the search finds a match whenever the text holds an email, and no email starts before the match it returns |
| EmailPattern.SearchFromSound | pubmed_fetcher/fetch.py:99 | every match the search returns is an email |
| EmailPattern.FirstEmailSpec | pubmed_fetcher/fetch.py:99 | `re.search` finds nothing exactly when the text holds no email; otherwise it returns the leftmost-longest email |
| EmailPattern.FirstEmailFound | pubmed_fetcher/fetch.py:99 | a returned email occurs in the text, is an email, starts before every other email, and is the longest one starting there |
| EmailPattern.EmailHasAt | pubmed_fetcher/fetch.py:99 | every email holds an `@` |
| EmailPattern.NoAtNoEmail | pubmed_fetcher/fetch.py:99 | text without `@` yields no email |
| EmailPattern.MatchAtHead | pubmed_fetcher/fetch.py:99 | an address at the head of the text is returned whole when the text ends there or continues with a character that cannot extend the domain |
| Classify.ContainsAnyFromSpec | pubmed_fetcher/fetch.py:95 | `any(keyword in affiliation ...)` holds exactly when some keyword in the list occurs in the text |
| Classify.SelectIndices | pubmed_fetcher/fetch.py:91-97 | the selected positions are in range, strictly increasing and satisfy the test, and every position that satisfies the test is selected |
| Classify.ScanAligned | pubmed_fetcher/fetch.py:91-97 | after the author loop, the k-th kept name and the k-th kept affiliation both belong to the k-th qualifying author in document order; the affiliation is that author's lower-cased affiliation and the name is their stripped name |
| Classify.TallyNonEmptyIff | pubmed_fetcher/fetch.py:95-97 | the loop keeps an affiliation exactly when some author's lower-cased affiliation contains a company keyword |
| Classify.TallyAffiliationsAreCompany | pubmed_fetcher/fetch.py:95-96 | every kept affiliation contains a company keyword |
| Classify.ScanEmailFirst | pubmed_fetcher/fetch.py:99-101 | the kept email is the regex result of the first kept affiliation that holds an email, and is absent exactly when none does |
| Classify.FirstFoundStep | pubmed_fetcher/fetch.py:100-101 | the first-found guard keeps an earlier result and takes the new one only while nothing has been found |
| Classify.ScanEmailKept | pubmed_fetcher/fetch.py:100-101 | once an email has been found, later authors never replace it |
| Classify.ScanEmailSomeFrom | pubmed_fetcher/fetch.py:99-101 | a qualifying author whose affiliation holds an email gives the article an email |
| Classify.EmailFromQualifyingAuthor | pubmed_fetcher/fetch.py:99-101 | the kept email is the leftmost-longest email of the lower-cased affiliation of some qualifying author |
| Classify.ScanEmailSource | pubmed_fetcher/fetch.py:99-101 | the kept email is the regex result of one of the kept affiliations |
| Classify.ScanKeptAuthor | pubmed_fetcher/fetch.py:96 | each kept affiliation is the lower-cased affiliation of a qualifying author |
| Classify.CompanyKeywordsHaveNoBlank | pubmed_fetcher/fetch.py:8 | no company keyword contains a blank |
| Classify.AcademicKeywordsAreNotCompany | pubmed_fetcher/fetch.py:7-8 | no academic keyword contains a company keyword |
| Classify.AcademicKeywordsAreLowerCase | pubmed_fetcher/fetch.py:7 | the academic keywords are unchanged by lower-casing |
| Classify.ContainsAcrossBlank | pubmed_fetcher/fetch.py:95 | a word without blanks occurs in `x + " " + t` exactly when it occurs in `x`, provided it does not occur in `t` |
| Classify.AcademicKeywordIgnored | pubmed_fetcher/fetch.py:95 | appending a blank and an academic keyword to an affiliation never changes whether it is classified as non-academic |
| Classify.NameOfAnonymousAuthor | pubmed_fetcher/fetch.py:92 | an author with neither last name nor forename gets the empty name |
| Classify.NameOfFullAuthor | pubmed_fetcher/fetch.py:92 | a last name and a forename without surrounding whitespace give `last + " " + fore` |
| Classify.NameOfSurnameOnly | pubmed_fetcher/fetch.py:92 | a missing forename gives the last name alone, without the trailing blank |
| Fetch.FetchPubmedDetails | pubmed_fetcher/fetch.py:44-116 | no identifiers gives no rows, any failed request or parse gives no rows, and otherwise the nested loops return exactly the rows `FetchDetails` specifies |
| Fetch.RecordsSelection | pubmed_fetcher/fetch.py:103-111 | there is one row per emitted article, in document order: the k-th row is built from the k-th emitted article |
| Fetch.EmittedIff | pubmed_fetcher/fetch.py:103 | an article yields a row exactly when one of its authors' lower-cased affiliations contains a company keyword, so never when it has no authors |
| Fetch.QualifyingAuthorListed | pubmed_fetcher/fetch.py:108-109 | every qualifying author's name occurs in the row's author column, and their lower-cased affiliation in its affiliation column |
| Fetch.MissingEmailIsNoEmail | pubmed_fetcher/fetch.py:110 | the placeholder `"N/A"` is not itself an email |
| Fetch.RecordEmail | pubmed_fetcher/fetch.py:110 | the email column is `"N/A"` exactly when no qualifying author's lower-cased affiliation holds an email; otherwise it is the leftmost-longest email of such an affiliation |
| Fetch.RecordDefaults | pubmed_fetcher/fetch.py:82-84 | a missing PMID or title becomes `""`, a missing year becomes `"Unknown"`, and a present year is kept |
| Fetch.RecordsOfTwo | pubmed_fetcher/fetch.py:81-111 | two articles yield the row of each emitted one, in order |
| Fetch.QualifiesByOccurrence | pubmed_fetcher/fetch.py:95 | an author whose lower-cased affiliation has a company keyword as a slice qualifies |
| Fetch.AcmeQualifies | pubmed_fetcher/fetch.py:93-99 | the affiliation "Acme Pharma Inc" qualifies and holds no email |
| Fetch.StateDoesNotQualify | pubmed_fetcher/fetch.py:95 | the affiliation "State University" does not qualify |
| Fetch.CompanyAndUniversityArticles | pubmed_fetcher/fetch.py:81-111 | of an "Acme Pharma Inc" article and a "State University" article, only the first yields a row, with PMID "111" and email "N/A" |

## Left out

- `fetch_pubmed_ids` (`pubmed_fetcher/fetch.py:20-41`) is left out. It is network I/O against the NCBI E-utilities search service.
- The efetch request and its exception handlers (`pubmed_fetcher/fetch.py:45-74`) are replaced by the `FetchResult` parameter. This parameter is either one of the caught failures or the parsed articles. Timeouts, HTTP status and the wire format are not modelled.
- The second, unguarded request at `pubmed_fetcher/fetch.py:76-78` is taken to return the same document as the first. An exception that it raises, which would escape to the caller, is not modelled.
- XML parsing and the `findall`/`findtext` path lookups are replaced by the `Article` and `Author` datatypes, whose missing elements are `None`. An element that is present but empty is the parser's `Some("")`.
- The debug `print`s (`pubmed_fetcher/fetch.py:113-114`) and the failure messages are left out, because they are console output only.
- `write_to_csv` (`pubmed_fetcher/fetch.py:118-124`) and the command-line front end are left out. They are file and console I/O through the `csv` and `argparse` libraries.
- Text.Lower: only ASCII letters are lower-cased. Python's `str.lower()` also maps non-ASCII letters, and the model does not. The company-keyword test is unaffected, because no keyword letter arises from a non-ASCII one except an `i` that is always followed by a combining dot. The email and affiliation columns can differ on such text, though:
  - U+0130 lower-cases to `i` followed by U+0307, and that `i` can extend a top-level domain;
  - U+212A (Kelvin sign) lower-cases to an ASCII `k`, which can start or extend an address;
  - any non-ASCII upper-case letter stays upper-case in the stored affiliation.
- EmailPattern.FirstEmail models this one pattern, not a general regular-expression engine.
- The `not corresponding_email` test at line 100 is modelled as "no email yet". The two coincide because a match is never the empty string.
