/** The members of std::string that the scanner and the install test use to
    search text: find, find_first_of and find_first_not_of. Each returns the
    first matching position at or after `from`, or NPOS when there is none. */
module StringSearch {

  /** std::string::npos, the largest value of a 64-bit size_t. */
  const NPOS: nat := 0xFFFF_FFFF_FFFF_FFFF

  /** Every std::string is shorter than npos, so npos is never a position in it. */
  predicate Addressable(s: string) {
    |s| < NPOS
  }

  /** `pat` occurs in `s` starting at position `i`. */
  predicate OccursAt(s: string, pat: string, i: nat) {
    i + |pat| <= |s| && s[i..i + |pat|] == pat
  }

  /** s.find(c, from) */
  function FindChar(s: string, c: char, from: nat): (r: nat)
    ensures r == NPOS || (from <= r < |s| && s[r] == c)
    decreases |s| - from
  {
    if from >= |s| then NPOS
    else if s[from] == c then from
    else FindChar(s, c, from + 1)
  }

  /** s.find_first_of(chars, from) */
  function FindFirstOf(s: string, chars: set<char>, from: nat): (r: nat)
    ensures r == NPOS || (from <= r < |s| && s[r] in chars)
    decreases |s| - from
  {
    if from >= |s| then NPOS
    else if s[from] in chars then from
    else FindFirstOf(s, chars, from + 1)
  }

  /** s.find_first_not_of(chars, from) */
  function FindFirstNotOf(s: string, chars: set<char>, from: nat): (r: nat)
    ensures r == NPOS || (from <= r < |s| && s[r] !in chars)
    decreases |s| - from
  {
    if from >= |s| then NPOS
    else if s[from] !in chars then from
    else FindFirstNotOf(s, chars, from + 1)
  }

  /** s.find(pat, from) */
  function Find(s: string, pat: string, from: nat): (r: nat)
    ensures r == NPOS || (from <= r && OccursAt(s, pat, r))
    decreases |s| - from
  {
    if from + |pat| > |s| then NPOS
    else if OccursAt(s, pat, from) then from
    else Find(s, pat, from + 1)
  }

  /** find_first_of moves past a position outside `chars`. */
  lemma FindFirstOfStep(s: string, chars: set<char>, from: nat)
    requires from < |s| && s[from] !in chars
    ensures FindFirstOf(s, chars, from) == FindFirstOf(s, chars, from + 1)
  {
  }

  /** find(c) skips only positions that do not hold `c`. */
  lemma {:induction false} FindCharSkips(s: string, c: char, from: nat)
    ensures forall i :: from <= i < |s| && i < FindChar(s, c, from) ==> s[i] != c
    decreases |s| - from
  {
    if from < |s| && s[from] != c {
      FindCharSkips(s, c, from + 1);
    }
  }

  /** find_first_of skips only positions outside `chars`. */
  lemma {:induction false} FindFirstOfSkips(s: string, chars: set<char>, from: nat)
    ensures forall i :: from <= i < |s| && i < FindFirstOf(s, chars, from) ==> s[i] !in chars
    decreases |s| - from
  {
    if from < |s| && s[from] !in chars {
      FindFirstOfSkips(s, chars, from + 1);
    }
  }

  /** find_first_not_of skips only positions inside `chars`. */
  lemma {:induction false} FindFirstNotOfSkips(s: string, chars: set<char>, from: nat)
    ensures forall i :: from <= i < |s| && i < FindFirstNotOf(s, chars, from) ==> s[i] in chars
    decreases |s| - from
  {
    if from < |s| && s[from] in chars {
      FindFirstNotOfSkips(s, chars, from + 1);
    }
  }

  /** find(pat) skips only positions where `pat` does not occur. */
  lemma {:induction false} FindSkips(s: string, pat: string, from: nat)
    ensures forall i :: from <= i < Find(s, pat, from) ==> !OccursAt(s, pat, i)
    decreases |s| - from
  {
    if from + |pat| <= |s| && !OccursAt(s, pat, from) {
      FindSkips(s, pat, from + 1);
    } else if from + |pat| > |s| {
      assert forall i :: from <= i ==> !OccursAt(s, pat, i);
    }
  }

  /** In a std::string, npos from find means that `pat` occurs nowhere at or after `from`. */
  lemma FindNposMeansAbsent(s: string, pat: string, from: nat)
    requires Addressable(s)
    ensures Find(s, pat, from) == NPOS <==> forall i :: from <= i ==> !OccursAt(s, pat, i)
  {
    FindSkips(s, pat, from);
    if Find(s, pat, from) != NPOS {
      assert OccursAt(s, pat, Find(s, pat, from));
    }
  }

  /** Whether `pat` occurs at `i` depends only on the text up to the end of
      the occurrence. */
  lemma OccursAtAgree(s: string, t: string, pat: string, i: nat)
    requires i + |pat| <= |s| && i + |pat| <= |t|
    requires forall k :: i <= k < i + |pat| ==> t[k] == s[k]
    ensures OccursAt(t, pat, i) <==> OccursAt(s, pat, i)
  {
    assert t[i..i + |pat|] == s[i..i + |pat|];
  }

  /** find returns the same match in a text that agrees with `s` up to the
      end of that match. */
  lemma FindUnchangedPrefix(s: string, t: string, pat: string, from: nat)
    requires Addressable(t) && Find(s, pat, from) != NPOS
    requires Find(s, pat, from) + |pat| <= |t|
    requires forall k :: 0 <= k < Find(s, pat, from) + |pat| ==> t[k] == s[k]
    ensures Find(t, pat, from) == Find(s, pat, from)
  {
    var r := Find(s, pat, from);
    FindSkips(s, pat, from);
    OccursAtAgree(s, t, pat, r);
    forall i | from <= i < r ensures !OccursAt(t, pat, i) {
      OccursAtAgree(s, t, pat, i);
    }
    FindIsFirst(t, pat, from, r);
  }

  /** A match with no match before it, at or after `from`, is what find returns. */
  lemma FindIsFirst(s: string, pat: string, from: nat, r: nat)
    requires Addressable(s) && from <= r && OccursAt(s, pat, r)
    requires forall i :: from <= i < r ==> !OccursAt(s, pat, i)
    ensures Find(s, pat, from) == r
  {
    FindSkips(s, pat, from);
  }

  /** The first position at or after `from` holding `c` is what find(c) returns. */
  lemma FindCharIsFirst(s: string, c: char, from: nat, r: nat)
    requires Addressable(s) && from <= r < |s| && s[r] == c
    requires forall i :: from <= i < r ==> s[i] != c
    ensures FindChar(s, c, from) == r
  {
    FindCharSkips(s, c, from);
  }
}
