/** The portfile model (src/portfile.h, src/portfile.cpp): a text buffer,
    the ranges of the REPO, REF and SHA512 arguments of its
    vcpkg_from_github call, and fixed-width overwrites of REF and SHA512. */
module Portfiles {
  import opened Wrappers
  import opened StringSearch
  import opened Utils

  const Marker := "vcpkg_from_github"

  /** The characters that separate keys and values inside the call. */
  const Separators: set<char> := {' ', '\n', '\t', '\r', ')'}

  const NotFromGithub := Fatal("The port is not from github")
  const SyntaxError := Fatal("Syntax error in portfile")

  function Missing(key: string): Error {
    Fatal("Missing " + key + " parameter in vcpkg_from_github")
  }

  /** The value of a default-constructed string_view or span: empty. */
  const Unset := Span(0, 0)

  /** The three recorded argument ranges. */
  datatype Fields = Fields(repo: Span, ref: Span, sha512: Span)

  const NoFields := Fields(Unset, Unset, Unset)

  predicate IsParam(key: string) {
    key == "REPO" || key == "REF" || key == "SHA512"
  }

  function Get(f: Fields, key: string): Span
    requires IsParam(key)
  {
    if key == "REPO" then f.repo else if key == "REF" then f.ref else f.sha512
  }

  /** The effect of one key/value pair on the recorded ranges. */
  function Record(f: Fields, key: string, value: Span): Fields {
    if key == "REPO" then f.(repo := value)
    else if key == "REF" then f.(ref := value)
    else if key == "SHA512" then f.(sha512 := value)
    else f
  }

  /** The text of a range of `s`; a range reaching past the end (which no
      token does) reads as empty. */
  function Text(s: string, t: Span): string {
    if t.Within(|s|) then s[t.start..t.End()] else ""
  }

  // ---------------------------------------------------------------------
  // Reference definition of the scan
  // ---------------------------------------------------------------------

  /** The argument region: the positions of the `(` and of the `)` that
      delimit it. */
  datatype Region = Region(open: nat, close: nat)

  /** Finds the first marker, the first `(` at or after it and the first `)`
      after that `(`. Parentheses are not matched by depth. */
  function Locate(s: string): (r: Result<Region, Error>)
    ensures r.Success? ==> r.value.open < r.value.close < |s|
  {
    var funcStart := Find(s, Marker, 0);
    if funcStart == NPOS then Failure(NotFromGithub)
    else
      var open := FindChar(s, '(', funcStart);
      if open == NPOS then Failure(SyntaxError)
      else
        var close := FindChar(s, ')', open + 1);
        if close == NPOS then Failure(SyntaxError)
        else Success(Region(open, close))
  }

  /** The search fails only for want of the marker or of a parenthesis; on
      success the marker, the `(` and the `)` come in that order. */
  lemma LocateSpec(s: string)
    ensures var r := Locate(s);
      && (r.Failure? ==> r.error == NotFromGithub || r.error == SyntaxError)
      && (r.Failure? && r.error == NotFromGithub <==> Find(s, Marker, 0) == NPOS)
      && (r.Success? ==>
            var m, open, close := Find(s, Marker, 0), r.value.open, r.value.close;
            && OccursAt(s, Marker, m)
            && m <= open < close < |s|
            && s[open] == '(' && s[close] == ')')
  {
  }

  /** The `(` is the first one after the marker, and the `)` the first one
      after the `(`. */
  lemma LocateFirst(s: string)
    requires Locate(s).Success?
    ensures var m, open, close := Find(s, Marker, 0), Locate(s).value.open, Locate(s).value.close;
      && (forall i :: m <= i < open ==> s[i] != '(')
      && (forall i :: open < i < close ==> s[i] != ')')
  {
    var m := Find(s, Marker, 0);
    FindCharSkips(s, '(', m);
    FindCharSkips(s, ')', Locate(s).value.open + 1);
  }

  /** The end of the run of non-separators that starts at `i`, bounded by `hi`. */
  function RunEnd(s: string, i: nat, hi: nat): (e: nat)
    requires i <= hi <= |s|
    ensures i <= e <= hi
    ensures e < hi ==> s[e] in Separators
    decreases hi - i
  {
    if i == hi || s[i] in Separators then i else RunEnd(s, i + 1, hi)
  }

  /** The run holds no separator. */
  lemma {:induction false} RunEndRun(s: string, i: nat, hi: nat)
    requires i <= hi <= |s|
    ensures forall k :: i <= k < RunEnd(s, i, hi) ==> s[k] !in Separators
    decreases hi - i
  {
    if i < hi && s[i] !in Separators {
      RunEndRun(s, i + 1, hi);
    }
  }

  /** The tokens of s[lo..hi]: its maximal runs of non-separators, in order. */
  function Tokens(s: string, lo: nat, hi: nat): seq<Span>
    requires lo <= hi <= |s|
    decreases hi - lo
  {
    if lo == hi then []
    else if s[lo] in Separators then Tokens(s, lo + 1, hi)
    else
      var e := RunEnd(s, lo + 1, hi);
      [Span(lo, e - lo)] + Tokens(s, e, hi)
  }

  /** Walks the tokens as alternating keys and values; a key without a value
      is a syntax error. */
  function Assign(s: string, toks: seq<Span>, f: Fields): Result<Fields, Error>
    decreases |toks|
  {
    if |toks| == 0 then Success(f)
    else if |toks| == 1 then Failure(SyntaxError)
    else Assign(s, toks[2..], Record(f, Text(s, toks[0]), toks[1]))
  }

  /** The tokens of the argument region of a located call. */
  function RegionTokens(s: string, reg: Region): seq<Span>
    requires reg.open < reg.close <= |s|
  {
    Tokens(s, reg.open + 1, reg.close)
  }

  /** The checks that all three parameters were seen, in source order. */
  function RequireAll(w: Result<Fields, Error>): Result<Fields, Error> {
    match w
    case Failure(e) => Failure(e)
    case Success(f) =>
      if f.repo.len == 0 then Failure(Missing("REPO"))
      else if f.ref.len == 0 then Failure(Missing("REF"))
      else if f.sha512.len == 0 then Failure(Missing("SHA512"))
      else Success(f)
  }

  /** What extract_values computes for the buffer `s`. */
  function Extract(s: string): Result<Fields, Error> {
    match Locate(s)
    case Failure(e) => Failure(e)
    case Success(reg) => RequireAll(Assign(s, RegionTokens(s, reg), NoFields))
  }

  // ---------------------------------------------------------------------
  // Properties of the tokens
  // ---------------------------------------------------------------------

  /** Every token is a non-empty range of s[lo..hi] starting at a non-separator. */
  lemma {:induction false} TokensBounds(s: string, lo: nat, hi: nat)
    requires lo <= hi <= |s|
    ensures forall t <- Tokens(s, lo, hi) :: lo <= t.start && t.End() <= hi && t.len > 0 && s[t.start] !in Separators
    decreases hi - lo
  {
    if lo < hi {
      if s[lo] in Separators {
        TokensBounds(s, lo + 1, hi);
      } else {
        var e := RunEnd(s, lo + 1, hi);
        TokensBounds(s, e, hi);
        assert Tokens(s, lo, hi) == [Span(lo, e - lo)] + Tokens(s, e, hi);
      }
    }
  }

  /** Each range ends strictly before the next one starts. */
  predicate Ordered(r: seq<Span>) {
    forall a, b :: 0 <= a < b < |r| ==> r[a].End() < r[b].start
  }

  /** A range ending before all ranges of an ordered sequence can lead it. */
  lemma OrderedCons(x: Span, rest: seq<Span>)
    requires Ordered(rest) && forall t <- rest :: x.End() < t.start
    ensures Ordered([x] + rest)
  {
    var r := [x] + rest;
    forall a, b | 0 <= a < b < |r| ensures r[a].End() < r[b].start {
      assert r[b] == rest[b - 1];
      if a > 0 {
        assert r[a] == rest[a - 1];
      } else {
        assert rest[b - 1] in rest;
      }
    }
  }

  /** Tokens are in order and separated: each ends strictly before the next starts. */
  lemma {:induction false} TokensOrdered(s: string, lo: nat, hi: nat)
    requires lo <= hi <= |s|
    ensures Ordered(Tokens(s, lo, hi))
    decreases hi - lo
  {
    if lo == hi {
    } else if s[lo] in Separators {
      TokensOrdered(s, lo + 1, hi);
      assert Tokens(s, lo, hi) == Tokens(s, lo + 1, hi);
    } else {
      var e := RunEnd(s, lo + 1, hi);
      TokensCons(s, lo, hi, e);
      TokensOrdered(s, e, hi);
      TokensBounds(s, e, hi);
      forall t | t in Tokens(s, e, hi) ensures e < t.start {
        assert s[t.start] !in Separators;
      }
      OrderedCons(Span(lo, e - lo), Tokens(s, e, hi));
    }
  }

  /** Every token is a run of non-separators. */
  lemma {:induction false} TokensRuns(s: string, lo: nat, hi: nat)
    requires lo <= hi <= |s|
    ensures forall t <- Tokens(s, lo, hi) :: t.End() <= hi && forall k :: t.start <= k < t.End() ==> s[k] !in Separators
    decreases hi - lo
  {
    if lo < hi {
      if s[lo] in Separators {
        TokensRuns(s, lo + 1, hi);
      } else {
        var e := RunEnd(s, lo + 1, hi);
        RunEndRun(s, lo + 1, hi);
        TokensRuns(s, e, hi);
        assert Tokens(s, lo, hi) == [Span(lo, e - lo)] + Tokens(s, e, hi);
      }
    }
  }

  lemma TokensOrderedAt(s: string, lo: nat, hi: nat, a: nat, b: nat)
    requires lo <= hi <= |s| && a < b < |Tokens(s, lo, hi)|
    ensures Tokens(s, lo, hi)[a].End() < Tokens(s, lo, hi)[b].start
  {
    TokensOrdered(s, lo, hi);
  }

  /** Tokens(s, lo, hi) unfolded once at a non-separator whose run ends at `e`. */
  lemma TokensCons(s: string, lo: nat, hi: nat, e: nat)
    requires lo < hi <= |s| && s[lo] !in Separators && e == RunEnd(s, lo + 1, hi)
    ensures Tokens(s, lo, hi) == [Span(lo, e - lo)] + Tokens(s, e, hi)
  {
  }

  /** A token starts at a non-separator and runs to the next separator, as
      found by find_first_of, when the region ends at a separator. */
  lemma TokenAt(s: string, k: nat, hi: nat)
    requires Addressable(s) && k < hi < |s| && s[hi] in Separators && s[k] !in Separators
    ensures var e := FindFirstOf(s, Separators, k);
      && k < e <= hi
      && Tokens(s, k, hi) == [Span(k, e - k)] + Tokens(s, e, hi)
  {
    FindFirstOfStep(s, Separators, k);
    RunEndIsFindFirstOf(s, k + 1, hi);
    TokensCons(s, k, hi, FindFirstOf(s, Separators, k));
  }

  /** Separators in front of `j` contribute no token. */
  lemma {:induction false} TokensSkip(s: string, k: nat, j: nat, hi: nat)
    requires k <= j <= hi <= |s|
    requires forall i :: k <= i < j ==> s[i] in Separators
    ensures Tokens(s, k, hi) == Tokens(s, j, hi)
    decreases j - k
  {
    if k < j {
      TokensSkip(s, k + 1, j, hi);
    }
  }

  /** When the position `hi` holds a separator, the bounded run end is what
      find_first_of returns. */
  lemma RunEndIsFindFirstOf(s: string, i: nat, hi: nat)
    requires Addressable(s) && i <= hi < |s| && s[hi] in Separators
    ensures RunEnd(s, i, hi) == FindFirstOf(s, Separators, i)
  {
    var e := RunEnd(s, i, hi);
    RunEndRun(s, i, hi);
    FindFirstOfSkips(s, Separators, i);
    assert s[e] in Separators;
  }

  // ---------------------------------------------------------------------
  // Properties of the key/value walk
  // ---------------------------------------------------------------------

  /** The m-th key/value pair of `toks` exists and its key is `key`. */
  predicate KeyAt(s: string, toks: seq<Span>, m: nat, key: string)
  {
    2 * m + 1 < |toks| && Text(s, toks[2 * m]) == key
  }

  ghost predicate HasKey(s: string, toks: seq<Span>, key: string)
  {
    exists m: nat :: KeyAt(s, toks, m, key)
  }

  /** `v` is the value of the last pair keyed `key`, or `dflt` when no pair has that key. */
  ghost predicate IsLastValue(s: string, toks: seq<Span>, key: string, dflt: Span, v: Span)
  {
    || (!HasKey(s, toks, key) && v == dflt)
    || (exists m: nat ::
          && KeyAt(s, toks, m, key)
          && v == toks[2 * m + 1]
          && forall m': nat :: m < m' ==> !KeyAt(s, toks, m', key))
  }

  /** The walk fails exactly when a key is left without a value, and then
      with a syntax error. */
  lemma {:induction false} AssignShape(s: string, toks: seq<Span>, f: Fields)
    ensures Assign(s, toks, f).Success? <==> |toks| % 2 == 0
    ensures Assign(s, toks, f).Failure? ==> Assign(s, toks, f).error == SyntaxError
    decreases |toks|
  {
    if |toks| >= 2 {
      AssignShape(s, toks[2..], Record(f, Text(s, toks[0]), toks[1]));
    }
  }

  /** Recording a pair sets the parameter it names and no other. */
  lemma RecordGet(f: Fields, k: string, value: Span, key: string)
    requires IsParam(key)
    ensures Get(Record(f, k, value), key) == if k == key then value else Get(f, key)
  {
  }

  /** Dropping the first pair shifts every later pair down by one. */
  lemma KeyAtShift(s: string, toks: seq<Span>, m: nat, key: string)
    requires |toks| >= 2
    ensures KeyAt(s, toks, m + 1, key) <==> KeyAt(s, toks[2..], m, key)
  {
    if 2 * m + 1 < |toks| - 2 {
      assert toks[2 * (m + 1)] == toks[2..][2 * m];
    }
  }

  /** A last pair for `key` after the first pair is the last pair of the whole walk. */
  lemma LastValueLater(s: string, toks: seq<Span>, key: string, m: nat)
    requires |toks| >= 2 && KeyAt(s, toks[2..], m, key)
    requires forall m': nat :: m < m' ==> !KeyAt(s, toks[2..], m', key)
    ensures KeyAt(s, toks, m + 1, key) && toks[2..][2 * m + 1] == toks[2 * (m + 1) + 1]
    ensures forall m': nat :: m + 1 < m' ==> !KeyAt(s, toks, m', key)
  {
    KeyAtShift(s, toks, m, key);
    forall m': nat | m + 1 < m' ensures !KeyAt(s, toks, m', key) {
      KeyAtShift(s, toks, m' - 1, key);
    }
  }

  /** When no later pair carries `key`, only the first pair can. */
  lemma LastValueFirst(s: string, toks: seq<Span>, key: string, dflt: Span, v: Span)
    requires |toks| >= 2 && !HasKey(s, toks[2..], key)
    requires v == if Text(s, toks[0]) == key then toks[1] else dflt
    ensures IsLastValue(s, toks, key, dflt, v)
  {
    forall m': nat | 0 < m' ensures !KeyAt(s, toks, m', key) {
      KeyAtShift(s, toks, m' - 1, key);
    }
    if Text(s, toks[0]) == key {
      assert KeyAt(s, toks, 0, key);
    } else {
      assert !KeyAt(s, toks, 0, key);
    }
  }

  /** The last value over the whole walk follows from the last value over
      the pairs after the first, with the first pair's effect as default. */
  lemma LastValueCons(s: string, toks: seq<Span>, key: string, dflt: Span, v: Span)
    requires |toks| >= 2
    requires IsLastValue(s, toks[2..], key, if Text(s, toks[0]) == key then toks[1] else dflt, v)
    ensures IsLastValue(s, toks, key, dflt, v)
  {
    var tail := toks[2..];
    if HasKey(s, tail, key) {
      var m: nat :| KeyAt(s, tail, m, key) && v == tail[2 * m + 1]
        && forall m': nat :: m < m' ==> !KeyAt(s, tail, m', key);
      LastValueLater(s, toks, key, m);
    } else {
      LastValueFirst(s, toks, key, dflt, v);
    }
  }

  /** After a successful walk each parameter holds the value of its last pair,
      or what it held before when no pair carries its key. */
  lemma {:induction false} AssignSpec(s: string, toks: seq<Span>, f: Fields, key: string)
    requires IsParam(key) && Assign(s, toks, f).Success?
    ensures IsLastValue(s, toks, key, Get(f, key), Get(Assign(s, toks, f).value, key))
    decreases |toks|
  {
    if |toks| >= 2 {
      var f' := Record(f, Text(s, toks[0]), toks[1]);
      assert Assign(s, toks, f) == Assign(s, toks[2..], f');
      AssignSpec(s, toks[2..], f', key);
      RecordGet(f, Text(s, toks[0]), toks[1], key);
      LastValueCons(s, toks, key, Get(f, key), Get(Assign(s, toks, f).value, key));
    }
  }

  // ---------------------------------------------------------------------
  // Properties of the scan
  // ---------------------------------------------------------------------

  /** The five error messages of the scan are distinct. */
  lemma MessagesDistinct()
    ensures NotFromGithub != SyntaxError
    ensures forall key | IsParam(key) :: Missing(key) != NotFromGithub && Missing(key) != SyntaxError
    ensures Missing("REPO") != Missing("REF") && Missing("REPO") != Missing("SHA512")
    ensures Missing("REF") != Missing("SHA512")
  {
    assert |NotFromGithub.message| != |SyntaxError.message|;
    assert |Missing("REPO").message| == 43;
    assert |Missing("REF").message| == 42;
    assert |Missing("SHA512").message| == 45;
  }

  /** After a successful walk from no recorded ranges, a parameter's range is
      non-empty exactly when some pair carries its key. */
  lemma RecordedIffPresent(s: string, reg: Region, key: string)
    requires reg.open < reg.close <= |s| && IsParam(key)
    requires Assign(s, RegionTokens(s, reg), NoFields).Success?
    ensures var toks := RegionTokens(s, reg);
      Get(Assign(s, toks, NoFields).value, key).len > 0 <==> HasKey(s, toks, key)
  {
    var toks := RegionTokens(s, reg);
    AssignSpec(s, toks, NoFields, key);
    TokensBounds(s, reg.open + 1, reg.close);
    var v := Get(Assign(s, toks, NoFields).value, key);
    if HasKey(s, toks, key) {
      var m: nat :| KeyAt(s, toks, m, key) && v == toks[2 * m + 1];
      assert toks[2 * m + 1] in toks;
    }
  }

  /** A failed scan fails as the search for the call does, or, once the call
      is found, with a syntax error or a missing parameter. */
  lemma ExtractErrors(s: string)
    requires Extract(s).Failure?
    ensures var e := Extract(s).error;
      || (Locate(s).Failure? && e == Locate(s).error)
      || (Locate(s).Success? &&
          (e == SyntaxError || e == Missing("REPO") || e == Missing("REF") || e == Missing("SHA512")))
  {
    if Locate(s).Success? {
      AssignShape(s, RegionTokens(s, Locate(s).value), NoFields);
    }
  }

  /** The scan reports that the port is not from GitHub exactly when the
      marker occurs nowhere in the text. */
  lemma ExtractNotFromGithub(s: string)
    requires Addressable(s)
    ensures Extract(s).Failure? && Extract(s).error == NotFromGithub <==>
      forall i :: !OccursAt(s, Marker, i)
  {
    FindNposMeansAbsent(s, Marker, 0);
    if Find(s, Marker, 0) == NPOS {
      NoMarker(s);
    } else if Extract(s).Failure? {
      ExtractErrors(s);
      MessagesDistinct();
    }
  }

  /** The scan reports a syntax error exactly when the marker occurs but the
      call's parentheses cannot be found, or a key is left without a value. */
  lemma ExtractSyntaxError(s: string)
    requires Addressable(s)
    ensures Extract(s).Failure? && Extract(s).error == SyntaxError <==>
      (exists i :: OccursAt(s, Marker, i)) &&
      (Locate(s).Failure? || |RegionTokens(s, Locate(s).value)| % 2 == 1)
  {
    FindNposMeansAbsent(s, Marker, 0);
    if Find(s, Marker, 0) == NPOS {
      NoMarker(s);
      MessagesDistinct();
    } else if Locate(s).Success? {
      AssignShape(s, RegionTokens(s, Locate(s).value), NoFields);
      MessagesDistinct();
    } else {
      LocateSpec(s);
    }
  }

  /** The scan succeeds exactly when the call is delimited, its tokens pair
      up, and each of REPO, REF and SHA512 is the key of some pair. */
  lemma ExtractSucceeds(s: string)
    ensures Extract(s).Success? <==>
      && Locate(s).Success?
      && var toks := RegionTokens(s, Locate(s).value);
      && |toks| % 2 == 0
      && HasKey(s, toks, "REPO") && HasKey(s, toks, "REF") && HasKey(s, toks, "SHA512")
  {
    if Locate(s).Success? {
      var reg := Locate(s).value;
      var toks := RegionTokens(s, reg);
      AssignShape(s, toks, NoFields);
      if Assign(s, toks, NoFields).Success? {
        RecordedIffPresent(s, reg, "REPO");
        RecordedIffPresent(s, reg, "REF");
        RecordedIffPresent(s, reg, "SHA512");
      }
    }
  }

  /** A missing parameter is reported by name: the REPO, REF and SHA512 checks
      run in that order, and each fires exactly when the walk succeeded, the
      earlier parameters were present and this one never appeared. */
  lemma ExtractMissing(s: string)
    ensures Extract(s) == Failure(Missing("REPO")) <==>
      && Locate(s).Success?
      && var toks := RegionTokens(s, Locate(s).value);
      && |toks| % 2 == 0 && !HasKey(s, toks, "REPO")
    ensures Extract(s) == Failure(Missing("REF")) <==>
      && Locate(s).Success?
      && var toks := RegionTokens(s, Locate(s).value);
      && |toks| % 2 == 0 && HasKey(s, toks, "REPO") && !HasKey(s, toks, "REF")
    ensures Extract(s) == Failure(Missing("SHA512")) <==>
      && Locate(s).Success?
      && var toks := RegionTokens(s, Locate(s).value);
      && |toks| % 2 == 0 && HasKey(s, toks, "REPO") && HasKey(s, toks, "REF")
      && !HasKey(s, toks, "SHA512")
  {
    MessagesDistinct();
    if Locate(s).Success? {
      var reg := Locate(s).value;
      var toks := RegionTokens(s, reg);
      AssignShape(s, toks, NoFields);
      if Assign(s, toks, NoFields).Success? {
        RecordedIffPresent(s, reg, "REPO");
        RecordedIffPresent(s, reg, "REF");
        RecordedIffPresent(s, reg, "SHA512");
      }
    }
  }

  /** On success each parameter's range is the value of the last pair keyed
      by its name inside the argument region; other keys are ignored. */
  lemma ExtractLastValue(s: string, key: string)
    requires IsParam(key) && Extract(s).Success?
    ensures Locate(s).Success?
    ensures var toks := RegionTokens(s, Locate(s).value);
      exists m: nat ::
        && KeyAt(s, toks, m, key)
        && Get(Extract(s).value, key) == toks[2 * m + 1]
        && forall m': nat :: m < m' ==> !KeyAt(s, toks, m', key)
  {
    var toks := RegionTokens(s, Locate(s).value);
    AssignSpec(s, toks, NoFields, key);
  }

  /** Every token of s[lo..hi] is a non-empty run of non-separators inside it. */
  lemma TokenRun(s: string, lo: nat, hi: nat, i: nat)
    requires lo <= hi <= |s| && i < |Tokens(s, lo, hi)|
    ensures var t := Tokens(s, lo, hi)[i];
      && lo <= t.start && t.End() <= hi && t.len > 0
      && forall k :: t.start <= k < t.End() ==> s[k] !in Separators
  {
    TokensRuns(s, lo, hi);
    TokensBounds(s, lo, hi);
    assert Tokens(s, lo, hi)[i] in Tokens(s, lo, hi);
  }

  /** On success each recorded range is a non-empty run of non-separators
      strictly inside the argument region. */
  lemma ExtractRangeInRegion(s: string, key: string)
    requires IsParam(key) && Extract(s).Success?
    ensures Locate(s).Success?
    ensures var reg, v := Locate(s).value, Get(Extract(s).value, key);
      && reg.open < v.start && v.End() <= reg.close && v.len > 0
      && forall k :: v.start <= k < v.End() ==> s[k] !in Separators
  {
    var m := ValueIndex(s, key);
    var reg := Locate(s).value;
    TokenRun(s, reg.open + 1, reg.close, 2 * m + 1);
  }

  /** The index of the pair whose value a parameter's range is. */
  lemma ValueIndex(s: string, key: string) returns (m: nat)
    requires IsParam(key) && Extract(s).Success?
    ensures Locate(s).Success?
    ensures var toks := RegionTokens(s, Locate(s).value);
      KeyAt(s, toks, m, key) && Get(Extract(s).value, key) == toks[2 * m + 1]
  {
    ExtractLastValue(s, key);
    var toks := RegionTokens(s, Locate(s).value);
    m :| KeyAt(s, toks, m, key) && Get(Extract(s).value, key) == toks[2 * m + 1];
  }

  /** Values of pairs with different keys are different tokens, hence disjoint. */
  lemma PairValuesDisjoint(s: string, lo: nat, hi: nat, ma: nat, mb: nat, a: string, b: string)
    requires lo <= hi <= |s| && a != b
    requires KeyAt(s, Tokens(s, lo, hi), ma, a) && KeyAt(s, Tokens(s, lo, hi), mb, b)
    ensures Tokens(s, lo, hi)[2 * ma + 1].DisjointFrom(Tokens(s, lo, hi)[2 * mb + 1])
  {
    var toks := Tokens(s, lo, hi);
    var va, vb := 2 * ma + 1, 2 * mb + 1;
    assert ma != mb;
    if ma < mb {
      TokensOrderedAt(s, lo, hi, va, vb);
      assert toks[va].End() < toks[vb].start;
    } else {
      TokensOrderedAt(s, lo, hi, vb, va);
      assert toks[vb].End() < toks[va].start;
    }
  }

  /** On success the ranges of two different parameters are disjoint. */
  lemma ValuesDisjoint(s: string, a: string, b: string)
    requires IsParam(a) && IsParam(b) && a != b && Extract(s).Success?
    ensures Get(Extract(s).value, a).DisjointFrom(Get(Extract(s).value, b))
  {
    var ma := ValueIndex(s, a);
    var mb := ValueIndex(s, b);
    var reg := Locate(s).value;
    assert RegionTokens(s, reg) == Tokens(s, reg.open + 1, reg.close);
    PairValuesDisjoint(s, reg.open + 1, reg.close, ma, mb, a, b);
  }

  /** On success the three recorded ranges are pairwise disjoint. */
  lemma ExtractDisjoint(s: string)
    requires Extract(s).Success?
    ensures var f := Extract(s).value;
      f.repo.DisjointFrom(f.ref) && f.repo.DisjointFrom(f.sha512) && f.ref.DisjointFrom(f.sha512)
  {
    ValuesDisjoint(s, "REPO", "REF");
    ValuesDisjoint(s, "REPO", "SHA512");
    ValuesDisjoint(s, "REF", "SHA512");
  }

  /** Everything the Portfile object invariant needs from a successful scan. */
  lemma ExtractWellFormed(s: string)
    requires Extract(s).Success?
    ensures var f := Extract(s).value;
      && f.repo.len > 0 && f.ref.len > 0 && f.sha512.len > 0
      && f.repo.Within(|s|) && f.ref.Within(|s|) && f.sha512.Within(|s|)
      && f.repo.DisjointFrom(f.ref) && f.repo.DisjointFrom(f.sha512) && f.ref.DisjointFrom(f.sha512)
  {
    ExtractRangeInRegion(s, "REPO");
    ExtractRangeInRegion(s, "REF");
    ExtractRangeInRegion(s, "SHA512");
    ExtractDisjoint(s);
  }

  // ---------------------------------------------------------------------
  // One step of the scanning loop, against the token walk
  // ---------------------------------------------------------------------

  /** The call found by its three searches. */
  lemma LocateOf(s: string, m: nat, open: nat, close: nat)
    requires m == Find(s, Marker, 0) && m != NPOS
    requires open == FindChar(s, '(', m) && open != NPOS
    requires close == FindChar(s, ')', open + 1) && close != NPOS
    ensures Locate(s) == Success(Region(open, close))
  {
  }

  /** The three searches behind a located call. */
  lemma LocateParts(s: string)
    requires Locate(s).Success?
    ensures var m := Find(s, Marker, 0);
      && m != NPOS
      && Locate(s).value.open == FindChar(s, '(', m)
      && Locate(s).value.close == FindChar(s, ')', Locate(s).value.open + 1)
  {
  }

  /** The three find calls in front of the loop delimit the argument region,
      and the scan is then the walk over the region's tokens. */
  lemma Located(s: string, funcStart: nat, open: nat, end: nat)
    requires funcStart == Find(s, Marker, 0) && funcStart != NPOS
    requires open == FindChar(s, '(', funcStart) && open != NPOS
    requires end == FindChar(s, ')', open + 1) && end != NPOS
    ensures open < end < |s| && s[end] == ')'
    ensures Extract(s) == RequireAll(Assign(s, Tokens(s, open + 1, end), NoFields))
  {
    LocateOf(s, funcStart, open, end);
    assert RegionTokens(s, Region(open, end)) == Tokens(s, open + 1, end);
  }

  /** Without the marker the scan reports that the port is not from GitHub. */
  lemma NoMarker(s: string)
    requires Find(s, Marker, 0) == NPOS
    ensures Extract(s) == Failure(NotFromGithub)
  {
  }

  /** With the marker but without a `(` after it, or a `)` after that, the
      scan reports a syntax error. */
  lemma NoParens(s: string, funcStart: nat, open: nat)
    requires funcStart == Find(s, Marker, 0) && funcStart != NPOS
    requires open == FindChar(s, '(', funcStart)
    requires open == NPOS || FindChar(s, ')', open + 1) == NPOS
    ensures Extract(s) == Failure(SyntaxError)
  {
  }

  /** find_first_of stops at the latest at a separator it is known to reach. */
  lemma SeparatorBy(s: string, k: nat, end: nat)
    requires Addressable(s) && k <= end < |s| && s[end] in Separators
    ensures FindFirstOf(s, Separators, k) <= end
  {
    FindFirstOfSkips(s, Separators, k);
  }

  /** No non-separator before the region end: no tokens remain. */
  lemma ScanDone(s: string, from: nat, end: nat)
    requires Addressable(s) && from <= end < |s|
    requires FindFirstNotOf(s, Separators, from) > end
    ensures Tokens(s, from, end) == []
  {
    FindFirstNotOfSkips(s, Separators, from);
    TokensSkip(s, from, end, end);
  }

  /** The next token after `from`: find_first_not_of and find_first_of
      delimit it, and it heads the remaining tokens. */
  lemma ScanToken(s: string, from: nat, end: nat, b: nat, e: nat)
    requires Addressable(s) && from <= end < |s| && s[end] in Separators
    requires b == FindFirstNotOf(s, Separators, from) && b <= end
    requires e == FindFirstOf(s, Separators, b)
    ensures from <= b < e <= end
    ensures Tokens(s, from, end) == [Span(b, e - b)] + Tokens(s, e, end)
  {
    FindFirstNotOfSkips(s, Separators, from);
    TokensSkip(s, from, b, end);
    TokenAt(s, b, end);
  }

  /** A key is found but no value starts before the region end: the walk
      reports a syntax error. */
  lemma ScanValueMissing(s: string, from: nat, end: nat, f: Fields, kb: nat, ke: nat)
    requires Addressable(s) && from <= end < |s| && s[end] in Separators
    requires kb == FindFirstNotOf(s, Separators, from) && kb <= end
    requires ke == FindFirstOf(s, Separators, kb)
    requires FindFirstNotOf(s, Separators, ke) > end
    ensures Assign(s, Tokens(s, from, end), f) == Failure(SyntaxError)
  {
    ScanToken(s, from, end, kb, ke);
    ScanDone(s, ke, end);
    assert Tokens(s, from, end) == [Span(kb, ke - kb)];
  }

  /** A key and its value are found: the find calls land inside the region,
      and the walk records the pair and continues after the value. */
  lemma ScanPair(s: string, from: nat, end: nat, f: Fields, kb: nat, ke: nat, vb: nat, ve: nat)
    requires Addressable(s) && from <= end < |s| && s[end] in Separators
    requires kb == FindFirstNotOf(s, Separators, from) && kb <= end
    requires ke == FindFirstOf(s, Separators, kb)
    requires vb == FindFirstNotOf(s, Separators, ke) && vb <= end
    requires ve == FindFirstOf(s, Separators, vb)
    ensures from <= kb < ke <= vb < ve <= end
    ensures Assign(s, Tokens(s, from, end), f) == Assign(s, Tokens(s, ve, end), Record(f, s[kb..ke], Span(vb, ve - vb)))
  {
    ScanToken(s, from, end, kb, ke);
    ScanToken(s, ke, end, vb, ve);
    var rest := Tokens(s, ve, end);
    var toks := [Span(kb, ke - kb), Span(vb, ve - vb)] + rest;
    assert Tokens(s, from, end) == toks;
    assert toks[2..] == rest;
    assert Text(s, toks[0]) == s[kb..ke];
  }

  // ---------------------------------------------------------------------
  // Rescanning after an overwrite
  // ---------------------------------------------------------------------

  /** Runs end at the same place in two texts that agree on which positions
      hold separators. */
  lemma {:induction false} RunEndSame(s: string, t: string, i: nat, hi: nat)
    requires i <= hi <= |s| && hi <= |t|
    requires forall k :: i <= k < hi ==> (s[k] in Separators <==> t[k] in Separators)
    ensures RunEnd(s, i, hi) == RunEnd(t, i, hi)
    decreases hi - i
  {
    if i < hi && s[i] !in Separators {
      RunEndSame(s, t, i + 1, hi);
    }
  }

  /** Tokens depend only on which positions hold separators. */
  lemma {:induction false} TokensSame(s: string, t: string, lo: nat, hi: nat)
    requires lo <= hi <= |s| && hi <= |t|
    requires forall k :: lo <= k < hi ==> (s[k] in Separators <==> t[k] in Separators)
    ensures Tokens(s, lo, hi) == Tokens(t, lo, hi)
    decreases hi - lo, 1
  {
    if lo < hi {
      if s[lo] in Separators {
        assert t[lo] in Separators;
        TokensSame(s, t, lo + 1, hi);
      } else {
        TokensSameRun(s, t, lo, hi);
      }
    }
  }

  lemma {:induction false} TokensSameRun(s: string, t: string, lo: nat, hi: nat)
    requires lo < hi <= |s| && hi <= |t| && s[lo] !in Separators
    requires forall k :: lo <= k < hi ==> (s[k] in Separators <==> t[k] in Separators)
    ensures Tokens(s, lo, hi) == Tokens(t, lo, hi)
    decreases hi - lo, 0
  {
    assert t[lo] !in Separators;
    var e := RunEnd(s, lo + 1, hi);
    RunEndSame(s, t, lo + 1, hi);
    TokensCons(s, lo, hi, e);
    TokensCons(t, lo, hi, e);
    TokensSame(s, t, e, hi);
  }

  /** The walk reads only the text of the keys. */
  lemma {:induction false} AssignSameKeys(s: string, t: string, toks: seq<Span>, f: Fields)
    requires forall k :: 0 <= k < |toks| && k % 2 == 0 ==> Text(s, toks[k]) == Text(t, toks[k])
    ensures Assign(s, toks, f) == Assign(t, toks, f)
    decreases |toks|
  {
    if |toks| >= 2 {
      var tail := toks[2..];
      forall k | 0 <= k < |tail| && k % 2 == 0 ensures Text(s, tail[k]) == Text(t, tail[k]) {
        assert tail[k] == toks[k + 2];
      }
      assert Text(s, toks[0]) == Text(t, toks[0]);
      AssignSameKeys(s, t, tail, Record(f, Text(s, toks[0]), toks[1]));
    }
  }

  /** The `(` of the call comes after the whole marker. */
  lemma MarkerBeforeOpen(s: string, reg: Region)
    requires Locate(s) == Success(reg)
    ensures Find(s, Marker, 0) + |Marker| <= reg.open
  {
    LocateParts(s);
    BeforeParen(s, Marker, Find(s, Marker, 0), reg.open);
  }

  /** A `(` at or after an occurrence of a pattern without `(` lies past its end. */
  lemma BeforeParen(s: string, pat: string, m: nat, open: nat)
    requires OccursAt(s, pat, m) && m <= open < |s| && s[open] == '('
    requires '(' !in pat
    ensures m + |pat| <= open
  {
    forall i | m <= i < m + |pat| ensures s[i] != '(' {
      assert s[i] == s[m..m + |pat|][i - m];
      assert pat[i - m] in pat;
    }
  }

  /** The three searches of the call give the same positions in a text that
      agrees with `s` up to the `(` and has the same `)` as the first one after it. */
  lemma SearchesUnchanged(s: string, t: string, pat: string, m: nat, open: nat, close: nat)
    requires Addressable(s) && |t| == |s|
    requires m == Find(s, pat, 0) && m != NPOS && m + |pat| <= open
    requires open == FindChar(s, '(', m) && open != NPOS
    requires close == FindChar(s, ')', open + 1) && close != NPOS
    requires forall i :: m <= i < open ==> s[i] != '('
    requires forall k :: 0 <= k <= open ==> t[k] == s[k]
    requires t[close] == ')' && forall i :: open < i < close ==> t[i] != ')'
    ensures Find(t, pat, 0) == m
    ensures FindChar(t, '(', m) == open
    ensures FindChar(t, ')', open + 1) == close
  {
    FindUnchangedPrefix(s, t, pat, 0);
    FindCharIsFirst(t, '(', m, open);
    FindCharIsFirst(t, ')', open + 1, close);
  }

  /** The call is located by the text up to its `(`, the `)` that closes it
      and the absence of other `)` in between. */
  lemma LocateUnchanged(s: string, t: string, reg: Region)
    requires Addressable(s) && |t| == |s| && Locate(s) == Success(reg)
    requires forall k :: 0 <= k <= reg.open ==> t[k] == s[k]
    requires t[reg.close] == ')'
    requires forall i :: reg.open < i < reg.close ==> t[i] != ')'
    ensures Locate(t) == Locate(s)
  {
    var m := Find(s, Marker, 0);
    LocateParts(s);
    LocateFirst(s);
    MarkerBeforeOpen(s, reg);
    SearchesUnchanged(s, t, Marker, m, reg.open, reg.close);
    LocateOf(t, m, reg.open, reg.close);
  }

  /** Overwriting the value of the mv-th pair with text of its length leaves
      the text of every key as it was, since tokens do not overlap. */
  lemma KeysUnchanged(s: string, lo: nat, hi: nat, mv: nat, str: string)
    requires lo <= hi <= |s| && 2 * mv + 1 < |Tokens(s, lo, hi)|
    requires |str| == Tokens(s, lo, hi)[2 * mv + 1].len
    ensures var toks, v := Tokens(s, lo, hi), Tokens(s, lo, hi)[2 * mv + 1];
      && v.start + |str| <= |s|
      && forall k :: 0 <= k < |toks| && k % 2 == 0 ==>
        Text(s, toks[k]) == Text(Splice(s, v.start, str), toks[k])
  {
    var toks := Tokens(s, lo, hi);
    var v := toks[2 * mv + 1];
    TokensBounds(s, lo, hi);
    assert v in toks;
    forall k | 0 <= k < |toks| && k % 2 == 0
      ensures Text(s, toks[k]) == Text(Splice(s, v.start, str), toks[k])
    {
      if k < 2 * mv + 1 {
        TokensOrderedAt(s, lo, hi, k, 2 * mv + 1);
      } else {
        TokensOrderedAt(s, lo, hi, 2 * mv + 1, k);
      }
      assert toks[k] in toks;
      assert toks[k].DisjointFrom(Span(v.start, |str|));
      SpliceKeepsDisjoint(s, v.start, str, toks[k]);
    }
  }

  /** Overwriting a run of non-separators with separator-free text keeps
      every separator where it was. */
  lemma SpliceSeparatorFree(s: string, v: Span, str: string)
    requires v.start + |str| <= |s| && |str| == v.len
    requires forall k :: v.start <= k < v.End() ==> s[k] !in Separators
    requires forall c <- str :: c !in Separators
    ensures forall k :: 0 <= k < |s| ==> (s[k] in Separators <==> Splice(s, v.start, str)[k] in Separators)
    ensures forall k :: 0 <= k < |s| && Splice(s, v.start, str)[k] in Separators ==> Splice(s, v.start, str)[k] == s[k]
  {
    var t := Splice(s, v.start, str);
    forall k | v.start <= k < v.End() ensures t[k] !in Separators {
      assert t[k] == str[k - v.start];
    }
  }

  /** Overwriting a run of non-separators with separator-free text of its
      length leaves the tokens of any stretch of the text as they were. */
  lemma TokensAfterOverwrite(s: string, lo: nat, hi: nat, v: Span, str: string)
    requires lo <= hi <= |s| && v.start + |str| <= |s| && |str| == v.len
    requires forall k :: v.start <= k < v.End() ==> s[k] !in Separators
    requires forall c <- str :: c !in Separators
    ensures Tokens(Splice(s, v.start, str), lo, hi) == Tokens(s, lo, hi)
  {
    SpliceSeparatorFree(s, v, str);
    TokensSame(s, Splice(s, v.start, str), lo, hi);
  }

  /** Overwriting a run of non-separators inside the argument region with
      separator-free text of its length locates the same call. */
  lemma LocateAfterOverwrite(s: string, reg: Region, v: Span, str: string)
    requires Addressable(s) && Locate(s) == Success(reg)
    requires reg.open < v.start && v.End() <= reg.close && |str| == v.len
    requires forall k :: v.start <= k < v.End() ==> s[k] !in Separators
    requires forall c <- str :: c !in Separators
    ensures v.start + |str| <= |s|
    ensures Locate(Splice(s, v.start, str)) == Locate(s)
  {
    SpliceSeparatorFree(s, v, str);
    LocateFirst(s);
    LocateUnchanged(s, Splice(s, v.start, str), reg);
  }

  /** Overwriting a recorded argument with text of the same length and free
      of separators leaves the scan's outcome as it was: the same call, the
      same tokens, the same keys and so the same ranges. This is what lets a
      saved portfile be loaded again. */
  lemma ExtractAfterOverwrite(s: string, key: string, str: string)
    requires Addressable(s) && IsParam(key) && Extract(s).Success?
    requires |str| == Get(Extract(s).value, key).len
    requires forall c <- str :: c !in Separators
    ensures Get(Extract(s).value, key).start + |str| <= |s|
    ensures Extract(Splice(s, Get(Extract(s).value, key).start, str)) == Extract(s)
  {
    var v := Get(Extract(s).value, key);
    var reg := Locate(s).value;
    var mv := ValueIndex(s, key);
    ExtractRangeInRegion(s, key);
    var t := Splice(s, v.start, str);
    LocateAfterOverwrite(s, reg, v, str);
    TokensAfterOverwrite(s, reg.open + 1, reg.close, v, str);
    var toks := Tokens(s, reg.open + 1, reg.close);
    assert RegionTokens(s, reg) == toks && RegionTokens(t, reg) == toks;
    KeysUnchanged(s, reg.open + 1, reg.close, mv, str);
    AssignSameKeys(s, t, toks, NoFields);
  }

  // ---------------------------------------------------------------------
  // The Portfile object
  // ---------------------------------------------------------------------

  /** A loaded portfile: the owned text buffer and the three argument ranges
      into it. The path the buffer was read from and is saved to is not modelled. */
  class Portfile {
    var content: array<char>
    var repo: Span
    var ref: Span
    var sha512: Span

    function Spans(): Fields
      reads this
    {
      Fields(repo, ref, sha512)
    }

    /** The state after a successful scan: all three ranges are non-empty,
        inside the buffer and pairwise disjoint. */
    ghost predicate Valid()
      reads this
    {
      && content.Length < NPOS
      && repo.len > 0 && ref.len > 0 && sha512.len > 0
      && repo.Within(content.Length) && ref.Within(content.Length) && sha512.Within(content.Length)
      && repo.DisjointFrom(ref) && repo.DisjointFrom(sha512) && ref.DisjointFrom(sha512)
    }

    /** The ranges are what a fresh scan of the buffer would record, so the
        buffer saved now loads back to the same ranges. */
    ghost predicate Scanned()
      reads this, content
    {
      content.Length < NPOS && Extract(content[..]) == Success(Spans())
    }

    /** The buffer holds the file text; the ranges are still default (empty). */
    constructor (text: string)
      requires Addressable(text)
      ensures fresh(content) && content[..] == text && Spans() == NoFields
    {
      content := new char[|text|](i requires 0 <= i < |text| => text[i]);
      repo, ref, sha512 := Unset, Unset, Unset;
    }

    /** repo(): the text of the REPO argument. */
    function Repo(): (r: string)
      reads this, content
      requires repo.Within(content.Length)
      ensures |r| == repo.len
      ensures forall i :: 0 <= i < |r| ==> r[i] == content[repo.start + i]
    {
      content[repo.start..repo.End()]
    }

    /** ref(): the text of the REF argument, as currently held in the buffer. */
    function Ref(): (r: string)
      reads this, content
      requires ref.Within(content.Length)
      ensures |r| == ref.len
      ensures forall i :: 0 <= i < |r| ==> r[i] == content[ref.start + i]
    {
      content[ref.start..ref.End()]
    }

    /** sha512(): the text of the SHA512 argument, as currently held in the buffer. */
    function Sha512(): (r: string)
      reads this, content
      requires sha512.Within(content.Length)
      ensures |r| == sha512.len
      ensures forall i :: 0 <= i < |r| ==> r[i] == content[sha512.start + i]
    {
      content[sha512.start..sha512.End()]
    }

    /** set_ref: overwrites the REF argument in the buffer; the new text must
        have the old one's length. The other arguments read as before. */
    method SetRef(str: string) returns (o: Outcome<Error>)
      requires Valid()
      modifies content
      ensures Valid()
      ensures o.Fail? <==> |str| != ref.len
      ensures o.Fail? ==> o.error == SizeMismatch && content[..] == old(content[..])
      ensures o.Pass? ==> content[..] == Splice(old(content[..]), ref.start, str)
      ensures o.Pass? ==> Ref() == str && Repo() == old(Repo()) && Sha512() == old(Sha512())
      ensures old(Scanned()) && (forall c <- str :: c !in Separators) ==> Scanned()
    {
      ghost var before := content[..];
      o := OverwriteSpan(content, ref, str);
      if o.Pass? {
        SpliceReadsBack(before, ref.start, str);
        SpliceKeepsDisjoint(before, ref.start, str, repo);
        SpliceKeepsDisjoint(before, ref.start, str, sha512);
        assert Ref() == content[..][ref.start..ref.End()];
        if Extract(before) == Success(Spans()) && forall c <- str :: c !in Separators {
          ExtractAfterOverwrite(before, "REF", str);
        }
        assert Repo() == content[..][repo.start..repo.End()];
        assert Sha512() == content[..][sha512.start..sha512.End()];
      }
    }

    /** set_sha512: overwrites the SHA512 argument in the buffer, as set_ref
        does for REF. */
    method SetSha512(str: string) returns (o: Outcome<Error>)
      requires Valid()
      modifies content
      ensures Valid()
      ensures o.Fail? <==> |str| != sha512.len
      ensures o.Fail? ==> o.error == SizeMismatch && content[..] == old(content[..])
      ensures o.Pass? ==> content[..] == Splice(old(content[..]), sha512.start, str)
      ensures o.Pass? ==> Sha512() == str && Repo() == old(Repo()) && Ref() == old(Ref())
      ensures old(Scanned()) && (forall c <- str :: c !in Separators) ==> Scanned()
    {
      ghost var before := content[..];
      o := OverwriteSpan(content, sha512, str);
      if o.Pass? {
        SpliceReadsBack(before, sha512.start, str);
        SpliceKeepsDisjoint(before, sha512.start, str, repo);
        SpliceKeepsDisjoint(before, sha512.start, str, ref);
        assert Sha512() == content[..][sha512.start..sha512.End()];
        if Extract(before) == Success(Spans()) && forall c <- str :: c !in Separators {
          ExtractAfterOverwrite(before, "SHA512", str);
        }
        assert Repo() == content[..][repo.start..repo.End()];
        assert Ref() == content[..][ref.start..ref.End()];
      }
    }

    /** save(): the text written back to the portfile's path. */
    method Save() returns (text: string)
      ensures text == content[..]
    {
      text := content[..];
    }

    /** extract_values: scans the buffer once, recording the argument ranges.
        The buffer itself is not changed. */
    method ExtractValues() returns (o: Outcome<Error>)
      requires content.Length < NPOS && Spans() == NoFields
      modifies this`repo, this`ref, this`sha512
      ensures o.Pass? <==> Extract(content[..]).Success?
      ensures o.Fail? ==> o.error == Extract(content[..]).error
      ensures o.Pass? ==> Spans() == Extract(content[..]).value && Valid()
    {
      var s := content[..];
      var funcStart := Find(s, Marker, 0);
      if funcStart == NPOS {
        NoMarker(s);
        return Fail(NotFromGithub);
      }
      var keyBegin := FindChar(s, '(', funcStart);
      if keyBegin == NPOS {
        NoParens(s, funcStart, keyBegin);
        return Fail(SyntaxError);
      }
      ghost var open := keyBegin;
      keyBegin := keyBegin + 1;
      var end := FindChar(s, ')', keyBegin);
      if end == NPOS {
        NoParens(s, funcStart, open);
        return Fail(SyntaxError);
      }
      Located(s, funcStart, open, end);
      o := ScanArguments(s, keyBegin, end);
      assert content[..] == s;
      if o.Fail? {
        assert Extract(s) == Failure(SyntaxError);
        return;
      }
      assert Extract(s) == RequireAll(Success(Spans()));
      if repo.len == 0 {
        return Fail(Missing("REPO"));
      }
      if ref.len == 0 {
        return Fail(Missing("REF"));
      }
      if sha512.len == 0 {
        return Fail(Missing("SHA512"));
      }
      ExtractWellFormed(s);
    }

    /** The loop of extract_values over the argument region s[keyBegin..end]:
        alternately skips separators and takes a run of non-separators as a
        key, then as its value, recording the values of REPO, REF and SHA512. */
    method ScanArguments(s: string, keyBegin: nat, end: nat) returns (o: Outcome<Error>)
      requires Addressable(s) && keyBegin <= end < |s| && s[end] == ')'
      modifies this`repo, this`ref, this`sha512
      ensures o.Pass? <==> Assign(s, Tokens(s, keyBegin, end), old(Spans())).Success?
      ensures o.Fail? ==> o.error == SyntaxError
      ensures o.Fail? ==> Assign(s, Tokens(s, keyBegin, end), old(Spans())) == Failure(SyntaxError)
      ensures o.Pass? ==> Assign(s, Tokens(s, keyBegin, end), old(Spans())) == Success(Spans())
    {
      ghost var walk := Assign(s, Tokens(s, keyBegin, end), Spans());
      var keyBegin := keyBegin;
      while true
        invariant keyBegin <= end
        invariant Assign(s, Tokens(s, keyBegin, end), Spans()) == walk
        decreases end - keyBegin
      {
        ghost var from := keyBegin;
        keyBegin := FindFirstNotOf(s, Separators, keyBegin);
        if keyBegin > end {
          ScanDone(s, from, end);
          return Pass;
        }
        var keyEnd := FindFirstOf(s, Separators, keyBegin);
        // The source checks keyEnd > end here; that check can never fire,
        // because the `)` at `end` is itself a separator.
        SeparatorBy(s, keyBegin, end);
        assert keyEnd <= end;
        var valueBegin := FindFirstNotOf(s, Separators, keyEnd);
        if valueBegin > end {
          ScanValueMissing(s, from, end, Spans(), keyBegin, keyEnd);
          return Fail(SyntaxError);
        }
        var valueEnd := FindFirstOf(s, Separators, valueBegin);
        // As for keyEnd, the source's check valueEnd > end can never fire.
        SeparatorBy(s, valueBegin, end);
        assert valueEnd <= end;
        ScanPair(s, from, end, Spans(), keyBegin, keyEnd, valueBegin, valueEnd);
        ghost var before := Spans();
        var key := s[keyBegin..keyEnd];
        var value := Span(valueBegin, valueEnd - valueBegin);
        if key == "REPO" {
          repo := value;
        } else if key == "REF" {
          ref := value;
        } else if key == "SHA512" {
          sha512 := value;
        }
        assert Spans() == Record(before, key, value);
        keyBegin := valueEnd;
      }
    }
  }

  /** Portfile(path): reads the file (here: takes its text) and scans it; a
      scan error ends the program, here it is returned. */
  method Load(text: string) returns (r: Result<Portfile, Error>)
    requires Addressable(text)
    ensures r.Success? <==> Extract(text).Success?
    ensures r.Failure? ==> r.error == Extract(text).error
    ensures r.Success? ==> fresh(r.value) && fresh(r.value.content)
    ensures r.Success? ==>
      && r.value.content[..] == text
      && r.value.Spans() == Extract(text).value
      && r.value.Valid() && r.value.Scanned()
  {
    var p := new Portfile(text);
    var o := p.ExtractValues();
    if o.Fail? {
      return Failure(o.error);
    }
    return Success(p);
  }
}
