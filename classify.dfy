/** Classification of one article's authors (the inner loop of `fetch_pubmed_details`):
    which authors count as non-academic, and what is accumulated for them. */
module Classify {
  import opened Text
  import opened EmailPattern

  /** Declared beside the company keywords but never consulted by the classification. */
  const AcademicKeywords: seq<string> := ["university", "college", "institute", "school", "hospital", "dept", "department", "centre", "center", "faculty"]

  const CompanyKeywords: seq<string> := ["pharma", "biotech", "therapeutics", "inc", "ltd", "llc", "corporation", "gmbh", "co."]

  /** One author as parsed from the article document; a missing element is `None`. */
  datatype Author = Author(lastName: Option<string>, foreName: Option<string>, affiliation: Option<string>)

  /** Python's `any(w in text for w in words)`, scanning `words` from index `i` on. */
  predicate ContainsAnyFrom(text: string, words: seq<string>, i: nat)
    decreases |words| - i
  {
    i < |words| && (Contains(text, words[i]) || ContainsAnyFrom(text, words, i + 1))
  }

  predicate ContainsAny(text: string, words: seq<string>) {
    ContainsAnyFrom(text, words, 0)
  }

  lemma {:induction false} ContainsAnyFromSpec(text: string, words: seq<string>, i: nat)
    ensures ContainsAnyFrom(text, words, i) <==> exists k :: i <= k < |words| && Contains(text, words[k])
    decreases |words| - i
  {
    if i < |words| {
      ContainsAnyFromSpec(text, words, i + 1);
    }
  }

  /** The non-academic test: some company keyword occurs in the (already lower-cased) text. */
  predicate IsCompanyAffiliation(affiliation: string) {
    ContainsAny(affiliation, CompanyKeywords)
  }

  /** `(LastName + " " + ForeName).strip()`, a missing part read as "". */
  function AuthorName(a: Author): string {
    Strip(a.lastName.GetOr("") + " " + a.foreName.GetOr(""))
  }

  /** The author's affiliation, lower-cased, "" when missing. */
  function AffiliationText(a: Author): string {
    Lower(a.affiliation.GetOr(""))
  }

  predicate Qualifies(a: Author) {
    IsCompanyAffiliation(AffiliationText(a))
  }

  /** What the loop over one article's authors accumulates: the names of the
      qualifying authors, their affiliations, and the first email found in them. */
  datatype Tally = Tally(names: seq<string>, affiliations: seq<string>, email: Option<string>)

  const EmptyTally := Tally([], [], None)

  /** One iteration of the author loop. The email is searched for only in a
      qualifying affiliation, and kept only while none has been found before. */
  function Step(t: Tally, a: Author): Tally {
    var affiliation := AffiliationText(a);
    if Qualifies(a) then
      Tally(t.names + [AuthorName(a)], t.affiliations + [affiliation],
            if t.email.None? then FirstEmail(affiliation) else t.email)
    else t
  }

  /** The tally after the loop has run over `authors`, in order. */
  function Scan(authors: seq<Author>): Tally
    decreases |authors|
  {
    if authors == [] then EmptyTally
    else Step(Scan(authors[..|authors| - 1]), authors[|authors| - 1])
  }

  /** The positions of `xs` whose element satisfies `p`, in increasing order. */
  function SelectIndices<T>(xs: seq<T>, p: T -> bool): (ix: seq<nat>)
    ensures |ix| <= |xs|
    ensures forall k :: 0 <= k < |ix| ==> ix[k] < |xs| && p(xs[ix[k]])
    ensures forall k, l :: 0 <= k < l < |ix| ==> ix[k] < ix[l]
    ensures forall i :: 0 <= i < |xs| && p(xs[i]) ==> i in ix
    decreases |xs|
  {
    if xs == [] then []
    else
      var ix := SelectIndices(xs[..|xs| - 1], p);
      if p(xs[|xs| - 1]) then ix + [|xs| - 1] else ix
  }

  // ---------------------------------------------------------------------------
  // Properties of the classification

  /** `t` lists, at each position `k`, the name and the lower-cased affiliation
      of the author at position `ix[k]` of `authors`. */
  ghost predicate Aligned(authors: seq<Author>, t: Tally, ix: seq<nat>) {
    |t.names| == |ix| && |t.affiliations| == |ix| &&
    forall k :: 0 <= k < |ix| ==>
      ix[k] < |authors| && t.names[k] == AuthorName(authors[ix[k]]) &&
      t.affiliations[k] == AffiliationText(authors[ix[k]])
  }

  /** The names and the affiliations are parallel lists with one entry per
      qualifying author, in the order the authors appear; the affiliation kept
      is the lower-cased one. */
  lemma {:induction false} ScanAligned(authors: seq<Author>)
    ensures Aligned(authors, Scan(authors), SelectIndices(authors, Qualifies))
    decreases |authors|
  {
    if authors != [] {
      var init := authors[..|authors| - 1];
      ScanAligned(init);
      StepAligned(authors, Scan(init), SelectIndices(init, Qualifies));
    }
  }

  /** One more author keeps the tally aligned; a qualifying one adds its own position. */
  lemma StepAligned(authors: seq<Author>, t: Tally, ix: seq<nat>)
    requires authors != [] && Aligned(authors[..|authors| - 1], t, ix)
    ensures var a := authors[|authors| - 1];
      Aligned(authors, Step(t, a), if Qualifies(a) then ix + [|authors| - 1] else ix)
  {
    var init := authors[..|authors| - 1];
    var a := authors[|authors| - 1];
    var ix' := if Qualifies(a) then ix + [|init|] else ix;
    var t' := Step(t, a);
    forall k | 0 <= k < |ix'|
      ensures ix'[k] < |authors| && t'.names[k] == AuthorName(authors[ix'[k]]) &&
              t'.affiliations[k] == AffiliationText(authors[ix'[k]])
    {
      if k < |ix| {
        assert ix'[k] == ix[k] && authors[ix[k]] == init[ix[k]];
      }
    }
  }



  /** An article's tally has an affiliation exactly when one of its authors qualifies. */
  lemma TallyNonEmptyIff(authors: seq<Author>)
    ensures Scan(authors).affiliations != [] <==> exists i :: 0 <= i < |authors| && Qualifies(authors[i])
  {
    ScanAligned(authors);
    var ix := SelectIndices(authors, Qualifies);
    if ix != [] {
      assert Qualifies(authors[ix[0]]);
    }
  }

  /** Every affiliation kept contains a company keyword. */
  lemma TallyAffiliationsAreCompany(authors: seq<Author>)
    ensures forall k :: 0 <= k < |Scan(authors).affiliations| ==> IsCompanyAffiliation(Scan(authors).affiliations[k])
  {
    ScanAligned(authors);
  }

  /** The email kept is the first one found when the kept affiliations are searched
      in order: it is "none" exactly when none of them holds an email, and otherwise
      it comes from the first kept affiliation that does. */
  lemma {:induction false} ScanEmailFirst(authors: seq<Author>)
    ensures FirstFound(FirstEmail, Scan(authors).affiliations, Scan(authors).email)
    decreases |authors|
  {
    if authors != [] {
      var init := authors[..|authors| - 1];
      var last := authors[|authors| - 1];
      ScanEmailFirst(init);
      if Qualifies(last) {
        var t := Scan(init);
        FirstFoundStep(FirstEmail, t.affiliations, t.email, AffiliationText(last));
      }
    }
  }

  /** A qualifying author whose affiliation holds an email gives the tally an email. */
  lemma {:induction false} ScanEmailSomeFrom(authors: seq<Author>, i: nat)
    requires i < |authors|
    ensures Qualifies(authors[i]) && FirstEmail(AffiliationText(authors[i])).Some? ==> Scan(authors).email.Some?
    decreases |authors|
  {
    var init := authors[..|authors| - 1];
    if i < |init| {
      ScanEmailSomeFrom(init, i);
      assert authors[i] == init[i];
    }
  }

  /** `email` is what searching `texts` in order with `find` keeps: nothing exactly
      when `find` finds nothing in any of them, and otherwise what it finds in the
      first text where it finds something. */
  ghost predicate FirstFound(find: string -> Option<string>, texts: seq<string>, email: Option<string>) {
    (email.None? <==> forall k :: 0 <= k < |texts| ==> find(texts[k]).None?) &&
    (email.Some? ==> exists k :: 0 <= k < |texts| && email == find(texts[k]) &&
                                 forall l :: 0 <= l < k ==> find(texts[l]).None?)
  }

  /** Searching one more text keeps the first result, or takes the new text's once nothing was found. */
  lemma FirstFoundStep(find: string -> Option<string>, texts: seq<string>, email: Option<string>, x: string)
    requires FirstFound(find, texts, email)
    ensures FirstFound(find, texts + [x], if email.None? then find(x) else email)
  {
    var texts' := texts + [x];
    assert forall l :: 0 <= l < |texts| ==> texts'[l] == texts[l];
    if email.Some? {
      var k :| 0 <= k < |texts| && email == find(texts[k]) &&
               forall l :: 0 <= l < k ==> find(texts[l]).None?;
      assert email == find(texts'[k]);
    } else {
      assert find(x) == find(texts'[|texts|]);
    }
  }


  /** Once an email has been found, later authors never replace it. */
  lemma {:induction false} ScanEmailKept(authors: seq<Author>, more: seq<Author>)
    requires Scan(authors).email.Some?
    ensures Scan(authors + more).email == Scan(authors).email
    decreases |more|
  {
    if more == [] {
      assert authors + more == authors;
    } else {
      var init := more[..|more| - 1];
      assert (authors + more)[..|authors + more| - 1] == authors + init;
      ScanEmailKept(authors, init);
    }
  }

  /** The email kept is an email occurring in the affiliation of some qualifying
      author: the leftmost-longest one in that affiliation. */
  lemma EmailFromQualifyingAuthor(authors: seq<Author>)
    requires Scan(authors).email.Some?
    ensures exists i :: 0 <= i < |authors| && Qualifies(authors[i]) &&
              exists a: nat :: FoundAt(AffiliationText(authors[i]), Scan(authors).email.value, a)
  {
    var k := ScanEmailSource(authors);
    var i := ScanKeptAuthor(authors, k);
    FirstEmailFound(AffiliationText(authors[i]), Scan(authors).email.value);
  }

  /** The email of the tally is the one found in one of its affiliations. */
  lemma ScanEmailSource(authors: seq<Author>) returns (k: nat)
    requires Scan(authors).email.Some?
    ensures k < |Scan(authors).affiliations| && Scan(authors).email == FirstEmail(Scan(authors).affiliations[k])
  {
    ScanEmailFirst(authors);
    var t := Scan(authors);
    k :| k < |t.affiliations| && t.email == FirstEmail(t.affiliations[k]);
  }

  /** Each affiliation of the tally is that of a qualifying author. */
  lemma ScanKeptAuthor(authors: seq<Author>, k: nat) returns (i: nat)
    requires k < |Scan(authors).affiliations|
    ensures i < |authors| && Qualifies(authors[i]) && Scan(authors).affiliations[k] == AffiliationText(authors[i])
  {
    ScanAligned(authors);
    i := SelectIndices(authors, Qualifies)[k];
  }


  // ---------------------------------------------------------------------------
  // The academic keywords play no part

  /** A company keyword never spans a blank: none contains one. */
  lemma CompanyKeywordsHaveNoBlank()
    ensures forall c :: 0 <= c < |CompanyKeywords| ==> ' ' !in CompanyKeywords[c]
  {
  }

  /** Every character of a word that occurs in `text` occurs in `text`. */
  lemma ContainedCharacters(text: string, word: string)
    ensures Contains(text, word) ==> forall k :: 0 <= k < |word| ==> word[k] in text
  {
    ContainsSpec(text, word);
    if Contains(text, word) {
      var j: nat :| OccursAt(text, word, j);
      forall k | 0 <= k < |word|
        ensures word[k] in text
      {
        assert text[j + k] == word[k];
      }
    }
  }

  /** A word holding a character that `text` lacks does not occur in `text`. */
  lemma MissingCharacter(text: string, word: string, c: char)
    requires c in word && c !in text
    ensures !Contains(text, word)
  {
    ContainedCharacters(text, word);
  }

  /** A text without the letters h, c and l holds no company keyword. */
  lemma WithoutHCL(a: string)
    requires 'h' !in a && 'c' !in a && 'l' !in a
    ensures !IsCompanyAffiliation(a)
  {
    MissingCharacter(a, "pharma", 'h');
    MissingCharacter(a, "biotech", 'h');
    MissingCharacter(a, "therapeutics", 'h');
    MissingCharacter(a, "inc", 'c');
    MissingCharacter(a, "ltd", 'l');
    MissingCharacter(a, "llc", 'c');
    MissingCharacter(a, "corporation", 'c');
    MissingCharacter(a, "gmbh", 'h');
    MissingCharacter(a, "co.", 'c');
    ContainsAnyFromSpec(a, CompanyKeywords, 0);
  }

  /** A text without the letters m, c and d holds no company keyword. */
  lemma WithoutMCD(a: string)
    requires 'm' !in a && 'c' !in a && 'd' !in a
    ensures !IsCompanyAffiliation(a)
  {
    MissingCharacter(a, "pharma", 'm');
    MissingCharacter(a, "biotech", 'c');
    MissingCharacter(a, "therapeutics", 'c');
    MissingCharacter(a, "inc", 'c');
    MissingCharacter(a, "ltd", 'd');
    MissingCharacter(a, "llc", 'c');
    MissingCharacter(a, "corporation", 'c');
    MissingCharacter(a, "gmbh", 'm');
    MissingCharacter(a, "co.", 'c');
    ContainsAnyFromSpec(a, CompanyKeywords, 0);
  }

  /** A text without the letters m, i and d, without a dot and without "llc" holds no company keyword. */
  lemma WithoutMID(a: string)
    requires 'm' !in a && 'i' !in a && 'd' !in a && '.' !in a
    requires !Contains(a, "llc")
    ensures !IsCompanyAffiliation(a)
  {
    MissingCharacter(a, "pharma", 'm');
    MissingCharacter(a, "biotech", 'i');
    MissingCharacter(a, "therapeutics", 'i');
    MissingCharacter(a, "inc", 'i');
    MissingCharacter(a, "ltd", 'd');
    MissingCharacter(a, "corporation", 'i');
    MissingCharacter(a, "gmbh", 'm');
    MissingCharacter(a, "co.", '.');
    ContainsAnyFromSpec(a, CompanyKeywords, 0);
  }

  /** "llc" is not in the academic keywords that hold both an l and a c. */
  lemma LlcNotIn(a: string)
    requires a == "college" || a == "school" || a == "faculty"
    ensures !Contains(a, "llc")
  {
    if a == "college" {
      assert !Contains("college", "llc");
    } else if a == "school" {
      assert !Contains("school", "llc");
    } else {
      assert !Contains("faculty", "llc");
    }
  }

  /** The academic keywords lacking h, c and l. */
  lemma UniversityInstituteDeptDepartment(a: string)
    requires a == "university" || a == "institute" || a == "dept" || a == "department"
    ensures !IsCompanyAffiliation(a)
  {
    WithoutHCL(a);
  }

  /** The academic keywords lacking m, i, d and a dot. */
  lemma CollegeSchoolCentreCenterFaculty(a: string)
    requires a == "college" || a == "school" || a == "centre" || a == "center" || a == "faculty"
    ensures !IsCompanyAffiliation(a)
  {
    if a == "college" || a == "school" || a == "faculty" {
      LlcNotIn(a);
    } else {
      MissingCharacter(a, "llc", 'l');
    }
    WithoutMID(a);
  }

  /** No academic keyword is itself a company affiliation. */
  lemma AcademicKeywordsAreNotCompany(k: nat)
    requires k < |AcademicKeywords|
    ensures !IsCompanyAffiliation(AcademicKeywords[k])
  {
    var a := AcademicKeywords[k];
    if k == 0 || k == 2 || k == 5 || k == 6 {
      UniversityInstituteDeptDepartment(a);
    } else if k == 4 {
      WithoutMCD(a);
    } else {
      CollegeSchoolCentreCenterFaculty(a);
    }
  }

  /** The academic keywords are written in lower case, so lower-casing leaves them unchanged. */
  lemma AcademicKeywordsAreLowerCase(k: nat)
    requires k < |AcademicKeywords|
    ensures Lower(AcademicKeywords[k]) == AcademicKeywords[k]
  {
    LowerOfLower(AcademicKeywords[k]);
  }

  /** A word without blanks that does not occur in `t` occurs in `x + " " + t` exactly when it occurs in `x`. */
  lemma ContainsAcrossBlank(x: string, t: string, w: string)
    requires ' ' !in w && !Contains(t, w)
    ensures Contains(x + " " + t, w) <==> Contains(x, w)
  {
    var y := x + " " + t;
    ContainsSpec(y, w);
    ContainsSpec(x, w);
    ContainsSpec(t, w);
    if Contains(x, w) {
      var j: nat :| OccursAt(x, w, j);
      assert y[j..j + |w|] == x[j..j + |w|];
      assert OccursAt(y, w, j);
    }
    if Contains(y, w) {
      var j: nat :| OccursAt(y, w, j);
      // the occurrence cannot cover the blank, nor lie in `t`
      CoveredBlank(x, t, w, j);
      if |x| < j {
        OccursInSuffix(x, t, w, j);
      }
      assert x[j..j + |w|] == y[j..j + |w|];
      assert OccursAt(x, w, j);
    }
  }

  /** An occurrence in `x + " " + t` that covers the blank between them holds a blank. */
  lemma CoveredBlank(x: string, t: string, w: string, j: nat)
    requires OccursAt(x + " " + t, w, j)
    ensures j <= |x| < j + |w| ==> ' ' in w
  {
    var y := x + " " + t;
    if j <= |x| < j + |w| {
      assert w[|x| - j] == y[|x|];
    }
  }

  /** An occurrence after the blank between `x` and `t` is an occurrence in `t`. */
  lemma OccursInSuffix(x: string, t: string, w: string, j: nat)
    requires OccursAt(x + " " + t, w, j) && |x| < j
    ensures OccursAt(t, w, j - |x| - 1)
  {
    var y := x + " " + t;
    assert t[j - |x| - 1..j - |x| - 1 + |w|] == y[j..j + |w|];
  }

  /** Appending a blank and an academic keyword to an affiliation does not change
      whether it is classified as non-academic: an affiliation that names a
      university but no company keyword stays excluded, and one that names both
      stays included. */
  lemma AcademicKeywordIgnored(affiliation: string, k: nat)
    requires k < |AcademicKeywords|
    ensures IsCompanyAffiliation(Lower(affiliation + " " + AcademicKeywords[k]))
        == IsCompanyAffiliation(Lower(affiliation))
  {
    var a := AcademicKeywords[k];
    var x := Lower(affiliation);
    AcademicKeywordsAreLowerCase(k);
    LowerConcat(affiliation, " ");
    LowerConcat(affiliation + " ", a);
    assert Lower(affiliation + " " + a) == x + " " + a;
    AcademicKeywordsAreNotCompany(k);
    CompanyKeywordsHaveNoBlank();
    ContainsAnyFromSpec(x + " " + a, CompanyKeywords, 0);
    ContainsAnyFromSpec(x, CompanyKeywords, 0);
    ContainsAnyFromSpec(a, CompanyKeywords, 0);
    forall c | 0 <= c < |CompanyKeywords|
      ensures Contains(x + " " + a, CompanyKeywords[c]) <==> Contains(x, CompanyKeywords[c])
    {
      ContainsAcrossBlank(x, a, CompanyKeywords[c]);
    }
  }

  // ---------------------------------------------------------------------------
  // Author names

  /** An author with neither a last name nor a forename gets the empty name. */
  lemma NameOfAnonymousAuthor(affiliation: Option<string>)
    ensures AuthorName(Author(None, None, affiliation)) == ""
  {
    assert "" + " " + "" == " ";
    assert RunEnd(" ", 0, IsSpace) == 1;
  }

  /** Parts without surrounding blanks are joined by exactly one blank. */
  lemma NameOfFullAuthor(last: string, fore: string, affiliation: Option<string>)
    requires last != [] && !IsSpace(last[0])
    requires fore != [] && !IsSpace(fore[|fore| - 1])
    ensures AuthorName(Author(Some(last), Some(fore), affiliation)) == last + " " + fore
  {
    var s := last + " " + fore;
    assert s[0] == last[0] && s[|s| - 1] == fore[|fore| - 1];
    StripTrimmed(s);
  }

  /** A missing forename leaves the last name alone (the trailing blank is stripped). */
  lemma NameOfSurnameOnly(last: string, affiliation: Option<string>)
    requires last != [] && !IsSpace(last[0]) && !IsSpace(last[|last| - 1])
    ensures AuthorName(Author(Some(last), None, affiliation)) == last
  {
    var s := last + " " + "";
    assert RunEnd(s, 0, IsSpace) == 0;
    assert RunStart(s, 0, |s| - 1, IsSpace) == |s| - 1;
    assert s[..|s| - 1] == last;
  }
}
