/** The error helper and the length-checked in-place overwrite of a buffer
    range (src/utils.h, src/utils.cpp). */
module Utils {
  import opened Wrappers

  /** A fatal error: the source prints the message and exits with status 1
      (error() in src/utils.h). An exception thrown by the JSON library ends
      the process the same way, through the handler in src/main.cpp. */
  datatype Error = Fatal(message: string) | JsonTypeError(id: nat)

  const SizeMismatch := Fatal("Size of span and string don't match")

  /** A sub-range of a buffer, given by its first position and its length;
      the source holds these as std::string_view and std::span<char>. */
  datatype Span = Span(start: nat, len: nat) {
    function End(): nat { start + len }

    predicate Within(n: nat) { End() <= n }

    predicate DisjointFrom(other: Span) {
      End() <= other.start || other.End() <= start
    }
  }

  /** `buf` with the characters from position `at` on replaced by `str`. */
  function Splice(buf: string, at: nat, str: string): (r: string)
    requires at + |str| <= |buf|
    ensures |r| == |buf|
    ensures forall i :: 0 <= i < |r| ==> r[i] == if at <= i < at + |str| then str[i - at] else buf[i]
  {
    buf[..at] + str + buf[at + |str|..]
  }

  /** After a splice, the spliced range reads back as the new string. */
  lemma SpliceReadsBack(buf: string, at: nat, str: string)
    requires at + |str| <= |buf|
    ensures Splice(buf, at, str)[at..at + |str|] == str
  {
    var r := Splice(buf, at, str);
    forall i | 0 <= i < |str| ensures r[at..at + |str|][i] == str[i] {
      assert r[at + i] == str[i];
    }
  }

  /** A range that does not overlap the spliced one reads as before. */
  lemma SpliceKeepsDisjoint(buf: string, at: nat, str: string, other: Span)
    requires at + |str| <= |buf| && other.Within(|buf|)
    requires other.DisjointFrom(Span(at, |str|))
    ensures Splice(buf, at, str)[other.start..other.End()] == buf[other.start..other.End()]
  {
    var r := Splice(buf, at, str);
    forall i | 0 <= i < other.len
      ensures r[other.start..other.End()][i] == buf[other.start..other.End()][i]
    {
      assert r[other.start + i] == buf[other.start + i];
    }
  }

  /** Overwriting a range twice with strings of its length leaves the second
      string; in particular writing the same string twice equals writing it once. */
  lemma SpliceOverwrites(buf: string, at: nat, first: string, second: string)
    requires at + |first| <= |buf| && |second| == |first|
    ensures Splice(Splice(buf, at, first), at, second) == Splice(buf, at, second)
  {
    var lhs := Splice(Splice(buf, at, first), at, second);
    var rhs := Splice(buf, at, second);
    forall i | 0 <= i < |buf| ensures lhs[i] == rhs[i] { }
  }

  /** Writing a range's own contents back into it changes nothing. */
  lemma SpliceOwnContents(buf: string, at: nat, len: nat)
    requires at + len <= |buf|
    ensures Splice(buf, at, buf[at..at + len]) == buf
  {
    var r := Splice(buf, at, buf[at..at + len]);
    forall i | 0 <= i < |buf| ensures r[i] == buf[i] { }
  }

  /** overwrite_span: copies `str` into the buffer range `span` in place, and
      fails without touching the buffer when the two sizes differ. */
  method OverwriteSpan(buf: array<char>, span: Span, str: string) returns (o: Outcome<Error>)
    requires span.Within(buf.Length)
    modifies buf
    ensures o.Fail? <==> span.len != |str|
    ensures o.Fail? ==> o.error == SizeMismatch && buf[..] == old(buf[..])
    ensures o.Pass? ==> buf[..] == Splice(old(buf[..]), span.start, str)
  {
    if span.len != |str| {
      return Fail(SizeMismatch);
    }
    for i := 0 to |str|
      invariant forall k :: 0 <= k < buf.Length ==>
        buf[k] == if span.start <= k < span.start + i then str[k - span.start] else old(buf[k])
    {
      buf[span.start + i] := str[i];
    }
    assert buf[..] == Splice(old(buf[..]), span.start, str);
    return Pass;
  }
}
