/** The one regular expression the fetcher applies to an affiliation,
    `[A-Za-z0-9._%+-]+@[A-Za-z0-9.-]+\.[A-Za-z]{2,}`, searched the way Python's
    `re.search` does: the leftmost start position that admits a match and, at that
    position, the match its greedy quantifiers reach first when backtracking. */
module EmailPattern {
  import opened Text

  predicate IsLetter(c: char) { 'A' <= c <= 'Z' || 'a' <= c <= 'z' }
  predicate IsDigit(c: char) { '0' <= c <= '9' }

  /** `[A-Za-z0-9._%+-]`: a character of the part before `@`. */
  predicate IsLocalChar(c: char) {
    IsLetter(c) || IsDigit(c) || c == '.' || c == '_' || c == '%' || c == '+' || c == '-'
  }

  /** `[A-Za-z0-9.-]`: a character of the domain. */
  predicate IsDomainChar(c: char) {
    IsLetter(c) || IsDigit(c) || c == '.' || c == '-'
  }

  // ---------------------------------------------------------------------------
  // What the pattern accepts, independently of how it is searched

  /** `e` is `local@domain.tld` with the `@` at `at` and the last separating `.` at `dot`. */
  predicate EmailShape(e: string, at: nat, dot: nat) {
    0 < at && at + 1 < dot && dot + 3 <= |e| && e[at] == '@' && e[dot] == '.' &&
    (forall k :: 0 <= k < at ==> IsLocalChar(e[k])) &&
    (forall k :: at < k < dot ==> IsDomainChar(e[k])) &&
    (forall k :: dot < k < |e| ==> IsLetter(e[k]))
  }

  /** The whole of `e` matches the pattern. */
  ghost predicate IsEmail(e: string) {
    exists at: nat, dot: nat :: EmailShape(e, at, dot)
  }

  // ---------------------------------------------------------------------------
  // The search

  /** `\.[A-Za-z]{2,}` matches at `d`. */
  predicate TldAt(s: string, d: nat)
    requires d < |s|
  {
    s[d] == '.' && RunEnd(s, d + 1, IsLetter) >= d + 3
  }

  /** The position the backtracking domain part `[A-Za-z0-9.-]+` settles on:
      the largest `d` in `[lo, hi)` at which `\.[A-Za-z]{2,}` matches. */
  function LastDot(s: string, lo: nat, hi: nat): (m: Option<nat>)
    requires hi <= |s|
    ensures m.Some? ==> lo <= m.value < hi && TldAt(s, m.value)
    ensures m.Some? ==> forall d :: m.value < d < hi ==> !TldAt(s, d)
    ensures m.None? ==> forall d :: lo <= d < hi ==> !TldAt(s, d)
    decreases hi
  {
    if hi <= lo then None
    else if TldAt(s, hi - 1) then Some(hi - 1)
    else LastDot(s, lo, hi - 1)
  }

  /** The end of the match that starts at `i`, if one does. The local part cannot
      contain `@`, so it must run exactly to the end of the local-character run;
      the domain run is then searched backwards for a `.` followed by two or more
      letters, and the top-level domain takes every letter that follows. */
  function MatchAt(s: string, i: nat): (r: Option<nat>)
    requires i <= |s|
    ensures r.Some? ==> i < r.value <= |s|
  {
    var at := RunEnd(s, i, IsLocalChar);
    if at == i || at == |s| || s[at] != '@' then None
    else
      var domainEnd := RunEnd(s, at + 1, IsDomainChar);
      match LastDot(s, at + 2, domainEnd)
      case None => None
      case Some(dot) => Some(RunEnd(s, dot + 1, IsLetter))
  }

  datatype Span = Span(start: nat, end: nat)

  /** `re.search` from position `i`: the first start position, from `i` on, at which a match exists. */
  function SearchFrom(s: string, i: nat): (r: Option<Span>)
    requires i <= |s|
    ensures r.Some? ==> i <= r.value.start < r.value.end <= |s|
    decreases |s| - i
  {
    match MatchAt(s, i)
    case Some(e) => Some(Span(i, e))
    case None => if i == |s| then None else SearchFrom(s, i + 1)
  }

  /** `re.search(pattern, s).group()`, or `None` when the search finds nothing. */
  function FirstEmail(s: string): Option<string> {
    match SearchFrom(s, 0)
    case None => None
    case Some(sp) => Some(s[sp.start..sp.end])
  }

  // ---------------------------------------------------------------------------
  // The search finds exactly the leftmost-longest match

  lemma MatchAtSound(s: string, i: nat)
    requires i <= |s| && MatchAt(s, i).Some?
    ensures IsEmail(s[i..MatchAt(s, i).value])
  {
    var at := RunEnd(s, i, IsLocalChar);
    var domainEnd := RunEnd(s, at + 1, IsDomainChar);
    var dot := LastDot(s, at + 2, domainEnd).value;
    var end := RunEnd(s, dot + 1, IsLetter);
    assert MatchAt(s, i).value == end;
    EmailFromText(s, i, end, at, dot);
  }

  /** A local run, an `@`, a domain run, a `.` and two or more letters in `s[i..b]` make it an email. */
  lemma EmailFromText(s: string, i: nat, b: nat, at: nat, dot: nat)
    requires i < at && at + 1 < dot && dot + 3 <= b <= |s| && s[at] == '@' && s[dot] == '.'
    requires forall k :: i <= k < at ==> IsLocalChar(s[k])
    requires forall k :: at < k < dot ==> IsDomainChar(s[k])
    requires forall k :: dot < k < b ==> IsLetter(s[k])
    ensures EmailShape(s[i..b], at - i, dot - i)
  {
    var e := s[i..b];
    assert forall k :: 0 <= k < |e| ==> e[k] == s[i + k];
  }

  /** An email `s[i..b]` split at `a` (its `@`) and `d` (its last `.`), restated on `s`. */
  lemma EmailInText(s: string, i: nat, b: nat, a: nat, d: nat)
    requires i <= b <= |s| && EmailShape(s[i..b], a, d)
    ensures i + a + 1 < i + d && i + d + 3 <= b && s[i + a] == '@' && s[i + d] == '.'
    ensures forall k :: i <= k < i + a ==> IsLocalChar(s[k])
    ensures forall k :: i + a < k < b ==> IsDomainChar(s[k])
    ensures forall k :: i + d < k < b ==> IsLetter(s[k])
  {
    var e := s[i..b];
    assert forall k :: i <= k < b ==> s[k] == e[k - i];
  }

  /** When a `.` at `d` is followed by letters up to `b`, two or more of them, the
      backward search over a range holding `d` stops at `d` or at a `.` from `b` on. */
  lemma LastDotReaches(s: string, lo: nat, hi: nat, d: nat, b: nat)
    requires lo <= d < hi <= |s| && d + 3 <= b <= |s|
    requires s[d] == '.' && forall k :: d < k < b ==> IsLetter(s[k])
    ensures LastDot(s, lo, hi).Some?
    ensures LastDot(s, lo, hi).value == d || LastDot(s, lo, hi).value >= b
  {
    RunEndAtLeast(s, d + 1, IsLetter, b);
    assert TldAt(s, d);
    var m := LastDot(s, lo, hi).value;
    assert s[m] == '.';
  }

  /** Every match starting at `i` is found by `MatchAt`, and none is longer than the one it returns. */
  lemma MatchAtLongest(s: string, i: nat, b: nat)
    requires i <= b <= |s| && IsEmail(s[i..b])
    ensures MatchAt(s, i).Some? && b <= MatchAt(s, i).value
  {
    var a: nat, d: nat :| EmailShape(s[i..b], a, d);
    EmailInText(s, i, b, a, d);
    MatchAtReaches(s, i, b, i + a, i + d);
  }

  /** `MatchAt` from `i` reaches `b` when `s[i..b]` has its `@` at `at` and its last `.` at `d`. */
  lemma MatchAtReaches(s: string, i: nat, b: nat, at: nat, d: nat)
    requires i < at && at + 1 < d && d + 3 <= b <= |s| && s[at] == '@' && s[d] == '.'
    requires forall k :: i <= k < at ==> IsLocalChar(s[k])
    requires forall k :: at < k < b ==> IsDomainChar(s[k])
    requires forall k :: d < k < b ==> IsLetter(s[k])
    ensures MatchAt(s, i).Some? && b <= MatchAt(s, i).value
  {
    RunEndIs(s, i, IsLocalChar, at);
    var dot := DomainReaches(s, at, d, b);
    MatchAtFromParts(s, i, at, dot, b);
  }

  /** After an `@` at `at`, the domain part settles on a `.` whose letters reach `b`. */
  lemma DomainReaches(s: string, at: nat, d: nat, b: nat) returns (dot: nat)
    requires at + 1 < d && d + 3 <= b <= |s| && s[d] == '.'
    requires forall k :: at < k < b ==> IsDomainChar(s[k])
    requires forall k :: d < k < b ==> IsLetter(s[k])
    ensures LastDot(s, at + 2, RunEnd(s, at + 1, IsDomainChar)) == Some(dot)
    ensures RunEnd(s, dot + 1, IsLetter) >= b
  {
    RunEndAtLeast(s, at + 1, IsDomainChar, b);
    RunEndAtLeast(s, d + 1, IsLetter, b);
    var domainEnd := RunEnd(s, at + 1, IsDomainChar);
    LastDotReaches(s, at + 2, domainEnd, d, b);
    dot := LastDot(s, at + 2, domainEnd).value;
    if dot != d {
      assert dot + 1 > b;
    }
  }

  /** `MatchAt` assembled from its three steps reaches at least `b`. */
  lemma MatchAtFromParts(s: string, i: nat, at: nat, dot: nat, b: nat)
    requires i < at < |s| && s[at] == '@' && RunEnd(s, i, IsLocalChar) == at
    requires LastDot(s, at + 2, RunEnd(s, at + 1, IsDomainChar)) == Some(dot)
    requires RunEnd(s, dot + 1, IsLetter) >= b
    ensures MatchAt(s, i).Some? && b <= MatchAt(s, i).value
  {
  }

  /** The matches found by `SearchFrom(s, i)` start no later than any email in `s` at or after `i`. */
  lemma {:induction false} SearchFromLeftmost(s: string, i: nat, a: nat, b: nat)
    requires i <= a <= b <= |s| && IsEmail(s[a..b])
    ensures SearchFrom(s, i).Some?
    ensures SearchFrom(s, i).value.start <= a
    ensures SearchFrom(s, i).value.start == a ==> b <= SearchFrom(s, i).value.end
    decreases |s| - i
  {
    if MatchAt(s, i).None? {
      if i == a {
        MatchAtLongest(s, a, b);
      }
      SearchFromLeftmost(s, i + 1, a, b);
    } else if i == a {
      MatchAtLongest(s, a, b);
    }
  }

  lemma {:induction false} SearchFromSound(s: string, i: nat)
    requires i <= |s| && SearchFrom(s, i).Some?
    ensures IsEmail(s[SearchFrom(s, i).value.start..SearchFrom(s, i).value.end])
    decreases |s| - i
  {
    if MatchAt(s, i).Some? {
      MatchAtSound(s, i);
    } else {
      SearchFromSound(s, i + 1);
    }
  }

  /** The email the search returns is the leftmost email in `s`, and the longest one
      starting there; the search returns nothing exactly when `s` holds no email. */
  lemma FirstEmailSpec(s: string)
    ensures FirstEmail(s).None? <==> forall a, b :: 0 <= a <= b <= |s| ==> !IsEmail(s[a..b])
    ensures forall e :: FirstEmail(s) == Some(e) ==> exists a: nat :: FoundAt(s, e, a)
  {
    forall a, b | 0 <= a <= b <= |s| && IsEmail(s[a..b])
      ensures FirstEmail(s).Some?
    {
      SearchFromLeftmost(s, 0, a, b);
    }
    forall e | FirstEmail(s) == Some(e)
      ensures exists a: nat :: FoundAt(s, e, a)
    {
      FirstEmailFound(s, e);
    }
  }

  /** An email that `FirstEmail` returns is the leftmost-longest match, found at some position. */
  lemma FirstEmailFound(s: string, e: string)
    requires FirstEmail(s) == Some(e)
    ensures exists a: nat :: FoundAt(s, e, a)
  {
    var sp := SearchFrom(s, 0).value;
    SearchFromSound(s, 0);
    forall a, b | 0 <= a <= b <= |s| && IsEmail(s[a..b])
      ensures sp.start < a || (sp.start == a && b <= sp.end)
    {
      SearchFromLeftmost(s, 0, a, b);
    }
    assert FoundAt(s, s[sp.start..sp.end], sp.start);
  }


  /** `e` is the leftmost-longest email of `s`, found at offset `a`. */
  ghost predicate FoundAt(s: string, e: string, a: nat) {
    a + |e| <= |s| && s[a..a + |e|] == e && LeftmostLongest(s, a, a + |e|)
  }

  /** `s[start..end]` is an email, no email in `s` starts before it, and none that starts with it is longer. */
  ghost predicate LeftmostLongest(s: string, start: nat, end: nat) {
    start <= end <= |s| && IsEmail(s[start..end]) &&
    forall a, b :: 0 <= a <= b <= |s| && IsEmail(s[a..b]) ==> start < a || (start == a && b <= end)
  }

  /** Every email holds an `@`. */
  lemma EmailHasAt(e: string)
    requires IsEmail(e)
    ensures '@' in e
  {
    var at: nat, dot: nat :| EmailShape(e, at, dot);
    assert e[at] == '@';
  }

  /** Text without an `@` yields no email. */
  lemma NoAtNoEmail(s: string)
    requires '@' !in s
    ensures FirstEmail(s) == None
  {
    FirstEmailSpec(s);
  }

  // ---------------------------------------------------------------------------
  // An address at the head of the text

  /** An address `s[..end]` with its `@` at `at` and its last `.` at `dot`, at the end
      of the text or followed by a character that cannot continue it, is what the
      search returns: the text after it is not taken into the top-level domain. */
  lemma MatchAtHead(s: string, at: nat, dot: nat, end: nat)
    requires 0 < at && at + 1 < dot && dot + 3 <= end <= |s| && s[at] == '@' && s[dot] == '.'
    requires forall k :: 0 <= k < at ==> IsLocalChar(s[k])
    requires forall k :: at < k < end ==> IsDomainChar(s[k])
    requires forall k :: dot < k < end ==> IsLetter(s[k])
    requires end == |s| || !IsDomainChar(s[end])
    ensures FirstEmail(s) == Some(s[..end])
  {
    RunEndIs(s, 0, IsLocalChar, at);
    RunEndIs(s, at + 1, IsDomainChar, end);
    RunEndIs(s, dot + 1, IsLetter, end);
    LastDotIs(s, at + 2, end, dot);
    assert MatchAt(s, 0) == Some(end);
  }

  /** `LastDot` settles on `d` when the top-level domain matches there and no `.` follows before `hi`. */
  lemma {:induction false} LastDotIs(s: string, lo: nat, hi: nat, d: nat)
    requires lo <= d < hi <= |s| && TldAt(s, d)
    requires forall k :: d < k < hi ==> s[k] != '.'
    ensures LastDot(s, lo, hi) == Some(d)
    decreases hi
  {
    if d < hi - 1 {
      LastDotIs(s, lo, hi - 1, d);
    }
  }
}
