/** String helpers with the meaning the fetcher relies on: Python's `str.lower()`
    (restricted to ASCII), `str.strip()`, the `in` substring test and `str.join`. */
module Text {

  datatype Option<T> = None | Some(value: T) {
    /** The wrapped value, or `default` when there is none. */
    function GetOr(default: T): T {
      match this
      case Some(v) => v
      case None => default
    }
  }

  // ---------------------------------------------------------------------------
  // Lower-casing

  predicate IsUpper(c: char) { 'A' <= c <= 'Z' }

  function LowerChar(c: char): char {
    if IsUpper(c) then (c as int + 32) as char else c
  }

  /** ASCII lower-casing: upper-case letters become lower-case, everything else is kept. */
  function Lower(s: string): (r: string)
    ensures |r| == |s|
    ensures forall i :: 0 <= i < |r| ==> !IsUpper(r[i])
    ensures forall i :: 0 <= i < |r| ==> r[i] == s[i] || (IsUpper(s[i]) && r[i] as int == s[i] as int + 32)
  {
    seq(|s|, i requires 0 <= i < |s| => LowerChar(s[i]))
  }

  lemma LowerConcat(a: string, b: string)
    ensures Lower(a + b) == Lower(a) + Lower(b)
  {
    assert forall i :: 0 <= i < |a + b| ==> Lower(a + b)[i] == (Lower(a) + Lower(b))[i];
  }

  /** Text without upper-case letters is left unchanged by `Lower`. */
  lemma LowerOfLower(s: string)
    requires forall i :: 0 <= i < |s| ==> !IsUpper(s[i])
    ensures Lower(s) == s
  {
  }

  // ---------------------------------------------------------------------------
  // Runs of characters

  /** End of the longest run of characters satisfying `p` that starts at `i`. */
  function RunEnd(s: string, i: nat, p: char -> bool): (j: nat)
    requires i <= |s|
    ensures i <= j <= |s|
    ensures forall k :: i <= k < j ==> p(s[k])
    ensures j == |s| || !p(s[j])
    decreases |s| - i
  {
    if i < |s| && p(s[i]) then RunEnd(s, i + 1, p) else i
  }

  /** Start of the longest run of characters satisfying `p` that ends at `j`,
      looking back no further than `lo`. */
  function RunStart(s: string, lo: nat, j: nat, p: char -> bool): (i: nat)
    requires lo <= j <= |s|
    ensures lo <= i <= j
    ensures forall k :: i <= k < j ==> p(s[k])
    ensures i == lo || !p(s[i - 1])
    decreases j
  {
    if lo < j && p(s[j - 1]) then RunStart(s, lo, j - 1, p) else j
  }

  /** A run of `p` that covers `[i, j)` and stops at `j` ends exactly at `j`. */
  lemma RunEndIs(s: string, i: nat, p: char -> bool, j: nat)
    requires i <= j <= |s|
    requires forall k :: i <= k < j ==> p(s[k])
    requires j == |s| || !p(s[j])
    ensures RunEnd(s, i, p) == j
  {
  }

  /** A run of `p` that covers `[i, j)` ends at `j` or later. */
  lemma RunEndAtLeast(s: string, i: nat, p: char -> bool, j: nat)
    requires i <= j <= |s|
    requires forall k :: i <= k < j ==> p(s[k])
    ensures RunEnd(s, i, p) >= j
  {
  }

  // ---------------------------------------------------------------------------
  // Stripping whitespace (the characters for which Python's `str.isspace` holds)

  predicate IsSpace(c: char) {
    c == ' ' || '\t' <= c <= '\r' || '\U{1C}' <= c <= '\U{1F}' || c == '\U{85}' || c == '\U{A0}' ||
    c == '\U{1680}' || '\U{2000}' <= c <= '\U{200A}' || c == '\U{2028}' || c == '\U{2029}' ||
    c == '\U{202F}' || c == '\U{205F}' || c == '\U{3000}'
  }

  /** Python's `str.strip()`: the text between the leading and the trailing
      whitespace. As in CPython, the leading run is found first and the backward
      scan for the trailing run stops where it ended. */
  function Strip(s: string): string {
    var i := RunEnd(s, 0, IsSpace);
    s[i..RunStart(s, i, |s|, IsSpace)]
  }

  /** `r` is the slice `s[i..j]`, with only whitespace outside it and none at either end of it. */
  ghost predicate TrimmedSlice(s: string, r: string, i: nat, j: nat) {
    i <= j <= |s| && r == s[i..j] &&
    (forall k :: 0 <= k < i ==> IsSpace(s[k])) &&
    (forall k :: j <= k < |s| ==> IsSpace(s[k])) &&
    (r == [] || (!IsSpace(r[0]) && !IsSpace(r[|r| - 1])))
  }

  /** `Strip(s)` is the part of `s` between its leading and its trailing whitespace. */
  lemma StripSpec(s: string)
    ensures exists i: nat, j: nat :: TrimmedSlice(s, Strip(s), i, j)
  {
    var i := RunEnd(s, 0, IsSpace);
    var j := RunStart(s, i, |s|, IsSpace);
    var r := s[i..j];
    assert Strip(s) == r;
    assert r != [] ==> r[0] == s[i] && r[|r| - 1] == s[j - 1];
    assert TrimmedSlice(s, r, i, j);
  }

  /** Text that neither starts nor ends with whitespace is left unchanged by `Strip`. */
  lemma StripTrimmed(s: string)
    requires s == [] || (!IsSpace(s[0]) && !IsSpace(s[|s| - 1]))
    ensures Strip(s) == s
  {
  }

  // ---------------------------------------------------------------------------
  // Substring test (Python's `word in text`)

  /** `word` matches `text` at offset `i` from its `k`-th character on. */
  predicate MatchesFrom(text: string, word: string, i: nat, k: nat)
    requires i + |word| <= |text| && k <= |word|
    decreases |word| - k
  {
    k == |word| || (text[i + k] == word[k] && MatchesFrom(text, word, i, k + 1))
  }

  /** `word` occurs in `text` at some offset `i` or later. */
  predicate ContainsFrom(text: string, word: string, i: nat)
    decreases |text| - i
  {
    i + |word| <= |text| && (MatchesFrom(text, word, i, 0) || ContainsFrom(text, word, i + 1))
  }

  predicate Contains(text: string, word: string) {
    ContainsFrom(text, word, 0)
  }

  ghost predicate OccursAt(text: string, word: string, i: nat) {
    i + |word| <= |text| && text[i..i + |word|] == word
  }

  lemma {:induction false} MatchesFromSpec(text: string, word: string, i: nat, k: nat)
    requires i + |word| <= |text| && k <= |word|
    ensures MatchesFrom(text, word, i, k) <==> forall m :: k <= m < |word| ==> text[i + m] == word[m]
    decreases |word| - k
  {
    if k < |word| {
      MatchesFromSpec(text, word, i, k + 1);
    }
  }

  lemma {:induction false} ContainsFromSpec(text: string, word: string, i: nat)
    ensures ContainsFrom(text, word, i) <==> exists j: nat :: i <= j && OccursAt(text, word, j)
    decreases |text| - i
  {
    if i + |word| <= |text| {
      MatchesFromSpec(text, word, i, 0);
      assert MatchesFrom(text, word, i, 0) <==> OccursAt(text, word, i) by {
        if MatchesFrom(text, word, i, 0) {
          assert text[i..i + |word|] == word;
        }
      }
      ContainsFromSpec(text, word, i + 1);
      if exists j: nat :: i <= j && OccursAt(text, word, j) {
        var j: nat :| i <= j && OccursAt(text, word, j);
        if j != i {
          assert i + 1 <= j;
        }
      }
    }
  }

  /** `Contains` is exactly Python's substring test: `word` is some slice of `text`. */
  lemma ContainsSpec(text: string, word: string)
    ensures Contains(text, word) <==> exists j: nat :: OccursAt(text, word, j)
  {
    ContainsFromSpec(text, word, 0);
  }

  // ---------------------------------------------------------------------------
  // Joining (Python's `sep.join(parts)`)

  function Join(parts: seq<string>, sep: string): (r: string)
    decreases |parts|
  {
    if parts == [] then ""
    else if |parts| == 1 then parts[0]
    else Join(parts[..|parts| - 1], sep) + sep + parts[|parts| - 1]
  }

  /** Every part occurs in the joined text. */
  lemma {:induction false} JoinContainsEach(parts: seq<string>, sep: string, k: nat)
    requires k < |parts|
    ensures exists j: nat :: OccursAt(Join(parts, sep), parts[k], j)
    decreases |parts|
  {
    var r := Join(parts, sep);
    if |parts| == 1 {
      assert OccursAt(r, parts[k], 0);
    } else {
      var init := parts[..|parts| - 1];
      var last := parts[|parts| - 1];
      assert r == Join(init, sep) + sep + last;
      if k == |parts| - 1 {
        assert OccursAt(r, parts[k], |r| - |last|);
      } else {
        JoinContainsEach(init, sep, k);
        var j: nat :| OccursAt(Join(init, sep), init[k], j);
        assert r[j..j + |parts[k]|] == Join(init, sep)[j..j + |parts[k]|];
        assert OccursAt(r, parts[k], j);
      }
    }
  }
}
