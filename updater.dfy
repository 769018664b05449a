/** The updater's bookkeeping (src/updater.h, src/updater.cpp): reading the
    hash vcpkg reports, the baseline and version-history documents, the
    paths it builds, and the loop that retries the install test until the
    recorded SHA512 is accepted. Commands (git, vcpkg) are not run: their
    output is given to the model. */
module Updating {
  import opened Wrappers
  import opened StringSearch
  import opened Utils
  import opened Json
  import opened Portfiles
  import opened Manifests

  // ---------------------------------------------------------------------
  // The install test's output
  // ---------------------------------------------------------------------

  /** What vcpkg prints in front of the archive hash it computed. */
  const HashMarker := "Actual hash: [ "

  /** The length of a hex-encoded SHA-512 digest. */
  const HashLength := 128

  /** run_command's result: the exit code and the lines of standard output. */
  datatype ProcessResult = ProcessResult(returnCode: int, output: seq<string>)

  predicate HasMarker(line: string) {
    Find(line, HashMarker, 0) != NPOS
  }

  /** std::ranges::find_if over the lines from `from` on. */
  function FirstMarked(lines: seq<string>, from: nat): (r: Option<nat>)
    ensures r.Some? ==> from <= r.value < |lines| && HasMarker(lines[r.value])
    decreases |lines| - from
  {
    if from >= |lines| then None
    else if HasMarker(lines[from]) then Some(from)
    else FirstMarked(lines, from + 1)
  }

  /** No line before the one found holds the marker, and when none is found
      no line from `from` on does. */
  lemma {:induction false} FirstMarkedIsFirst(lines: seq<string>, from: nat)
    ensures var r := FirstMarked(lines, from);
      && (r.Some? ==> forall j :: from <= j < r.value ==> !HasMarker(lines[j]))
      && (r.None? ==> forall j :: from <= j < |lines| ==> !HasMarker(lines[j]))
    decreases |lines| - from
  {
    if from < |lines| && !HasMarker(lines[from]) {
      FirstMarkedIsFirst(lines, from + 1);
    }
  }

  /** std::string::substr(pos, count) with pos inside the string: at most
      `count` characters from `pos` on. */
  function Substr(s: string, pos: nat, count: nat): (r: string)
    requires pos <= |s|
    ensures |r| == if pos + count <= |s| then count else |s| - pos
    ensures forall k :: 0 <= k < |r| ==> r[k] == s[pos + k]
  {
    if pos + count <= |s| then s[pos..pos + count] else s[pos..]
  }

  /** test_install: the (at most) 128 characters after the first marker in
      the first output line holding one, or empty when no line does. The
      exit code is not looked at. */
  function TestInstall(res: ProcessResult): (hash: string)
    ensures |hash| <= HashLength
  {
    match FirstMarked(res.output, 0)
    case None => ""
    case Some(i) =>
      var line := res.output[i];
      Substr(line, Find(line, HashMarker, 0) + |HashMarker|, HashLength)
  }

  /** The marker occurs nowhere in `line`. */
  ghost predicate Unmarked(line: string) {
    forall k :: !OccursAt(line, HashMarker, k)
  }

  /** Every output line is short enough for find to report npos. */
  predicate Readable(res: ProcessResult) {
    forall line <- res.output :: Addressable(line)
  }

  /** vcpkg reported no hash: no line holds the marker, or the first line
      that does ends right after its first marker. */
  ghost predicate ReportsNoHash(res: ProcessResult) {
    || (forall line <- res.output :: Unmarked(line))
    || (FirstMarked(res.output, 0).Some? &&
        var i := FirstMarked(res.output, 0).value;
        Find(res.output[i], HashMarker, 0) + |HashMarker| == |res.output[i]|)
  }

  /** The hash is empty exactly when vcpkg reported none. */
  lemma TestInstallEmpty(res: ProcessResult)
    requires Readable(res)
    ensures TestInstall(res) == "" <==> ReportsNoHash(res)
  {
    forall j | 0 <= j < |res.output|
      ensures !HasMarker(res.output[j]) <==> Unmarked(res.output[j])
    {
      FindNposMeansAbsent(res.output[j], HashMarker, 0);
    }
    FirstMarkedIsFirst(res.output, 0);
    var r := FirstMarked(res.output, 0);
    if r.Some? {
      var line := res.output[r.value];
      assert !Unmarked(line);
    }
  }

  /** When the first line that holds the marker reads `pre`, the marker, `h`
      and `post`, and `pre` holds no earlier marker, the hash read is exactly
      `h`, provided `h` is 128 characters long or ends the line: the hash is
      the 128 characters after the marker, or all of them when fewer follow. */
  lemma TestInstallReadsHash(res: ProcessResult, i: nat, pre: string, h: string, post: string)
    requires i < |res.output| && Readable(res)
    requires forall j :: 0 <= j < i ==> Unmarked(res.output[j])
    requires res.output[i] == pre + HashMarker + h + post
    requires forall k :: 0 <= k < |pre| ==> !OccursAt(res.output[i], HashMarker, k)
    requires |h| <= HashLength && (|h| < HashLength ==> post == "")
    ensures TestInstall(res) == h
  {
    var line := res.output[i];
    assert OccursAt(line, HashMarker, |pre|) by {
      assert line[|pre|..|pre| + |HashMarker|] == HashMarker;
    }
    FirstMarkedAt(res, i, |pre|);
    var offset := |pre| + |HashMarker|;
    if |h| == HashLength {
      assert line[offset..offset + HashLength] == h;
    } else {
      assert line[offset..] == h;
    }
  }

  /** A line with no marked line before it, whose first marker is at `p`, is
      the line find_if stops at, and find reports `p` in it. */
  lemma FirstMarkedAt(res: ProcessResult, i: nat, p: nat)
    requires i < |res.output| && Readable(res)
    requires forall j :: 0 <= j < i ==> Unmarked(res.output[j])
    requires OccursAt(res.output[i], HashMarker, p)
    requires forall k :: 0 <= k < p ==> !OccursAt(res.output[i], HashMarker, k)
    ensures FirstMarked(res.output, 0) == Some(i)
    ensures Find(res.output[i], HashMarker, 0) == p
  {
    FindIsFirst(res.output[i], HashMarker, 0, p);
    forall j | 0 <= j < i ensures !HasMarker(res.output[j]) {
      FindNposMeansAbsent(res.output[j], HashMarker, 0);
    }
    FirstMarkedIsFirst(res.output, 0);
  }

  // ---------------------------------------------------------------------
  // The baseline document (versions/baseline.json)
  // ---------------------------------------------------------------------

  /** The object update_versions stores for the port in the baseline. */
  function BaselineEntry(m: Version): Json {
    Obj(ObjectOf([("baseline", Str(m.version)), ("port-version", Int(m.portVersion))]))
  }

  /** json["default"][name] = {baseline, port-version}. */
  function UpdateBaseline(doc: Json, name: string, m: Version): (r: Result<Json, Error>)
    ensures r.Success? ==>
      && r.value.Obj? && "default" in r.value.members
      && r.value.members["default"].Obj? && name in r.value.members["default"].members
      && r.value.members["default"].members[name] == BaselineEntry(m)
  {
    var ports :- Member(doc, "default");
    var ports' :- WithMember(ports, name, BaselineEntry(m));
    WithMember(doc, "default", ports')
  }

  /** The baseline entry holds the version and the port-version, and nothing else. */
  lemma BaselineEntryContents(m: Version)
    ensures BaselineEntry(m).members.Keys == {"baseline", "port-version"}
    ensures BaselineEntry(m).members["baseline"] == Str(m.version)
    ensures BaselineEntry(m).members["port-version"] == Int(m.portVersion)
  {
    var pairs := [("baseline", Str(m.version)), ("port-version", Int(m.portVersion))];
    ObjectOfKeys(pairs);
    ObjectOfFirstWins(pairs, 0);
    ObjectOfFirstWins(pairs, 1);
    assert (set p <- pairs :: p.0) == {"baseline", "port-version"} by {
      assert pairs[0] in pairs && pairs[1] in pairs;
    }
  }

  /** The update fails exactly when the document, or its "default" member,
      is neither null nor an object. */
  lemma UpdateBaselineFails(doc: Json, name: string, m: Version)
    ensures UpdateBaseline(doc, name, m).Failure? <==>
      || !(doc.Null? || doc.Obj?)
      || (var ports := Member(doc, "default").value; !(ports.Null? || ports.Obj?))
    ensures UpdateBaseline(doc, name, m).Failure? ==>
      UpdateBaseline(doc, name, m).error == IndexTypeError
  {
  }

  /** After the update the port's entry is the new one; every other port's
      entry and every other member of the document are as before. */
  lemma UpdateBaselineSets(doc: Json, name: string, m: Version, other: string, key: string)
    requires UpdateBaseline(doc, name, m).Success?
    ensures var d := UpdateBaseline(doc, name, m).value;
      && Member(d, "default").Success?
      && Member(Member(d, "default").value, name) == Success(BaselineEntry(m))
      && (other != name ==>
            Member(Member(d, "default").value, other) == Member(Member(doc, "default").value, other))
      && (key != "default" ==> Member(d, key) == Member(doc, key))
  {
    var ports := Member(doc, "default").value;
    WithMemberThenMember(ports, name, BaselineEntry(m), other);
    var ports' := WithMember(ports, name, BaselineEntry(m)).value;
    WithMemberThenMember(doc, "default", ports', key);
  }

  /** Updating the baseline twice with the same values is updating it once. */
  lemma UpdateBaselineIdempotent(doc: Json, name: string, m: Version)
    requires UpdateBaseline(doc, name, m).Success?
    ensures UpdateBaseline(UpdateBaseline(doc, name, m).value, name, m) == UpdateBaseline(doc, name, m)
  {
    var ports := Member(doc, "default").value;
    var ports' := WithMember(ports, name, BaselineEntry(m)).value;
    var d := UpdateBaseline(doc, name, m).value;
    WithMemberThenMember(doc, "default", ports', "default");
    assert Member(d, "default") == Success(ports');
    WithMemberTwice(ports, name, BaselineEntry(m), BaselineEntry(m));
    WithMemberTwice(doc, "default", ports', ports');
  }

  // ---------------------------------------------------------------------
  // The version history (versions/<initial>-/<name>.json)
  // ---------------------------------------------------------------------

  /** The entry update_versions puts in front of the history. */
  function VersionEntry(m: Version, tree: string): Json {
    Obj(ObjectOf([(m.versionType, Str(m.version)), ("port-version", Int(m.portVersion)), ("git-tree", Str(tree))]))
  }

  /** A version type a manifest read can leave: a scheme name or nothing. */
  predicate SchemeOrNone(versionType: string) {
    versionType in Schemes || versionType == ""
  }

  /** The history entry holds the version under its scheme's name, the
      port-version and the git tree, and nothing else. */
  lemma VersionEntryContents(m: Version, tree: string)
    requires SchemeOrNone(m.versionType)
    ensures VersionEntry(m, tree).members.Keys == {m.versionType, "port-version", "git-tree"}
    ensures VersionEntry(m, tree).members[m.versionType] == Str(m.version)
    ensures VersionEntry(m, tree).members["port-version"] == Int(m.portVersion)
    ensures VersionEntry(m, tree).members["git-tree"] == Str(tree)
  {
    var pairs := [(m.versionType, Str(m.version)), ("port-version", Int(m.portVersion)), ("git-tree", Str(tree))];
    ObjectOfKeys(pairs);
    ObjectOfFirstWins(pairs, 0);
    ObjectOfFirstWins(pairs, 1);
    ObjectOfFirstWins(pairs, 2);
    assert (set p <- pairs :: p.0) == {m.versionType, "port-version", "git-tree"} by {
      assert pairs[0] in pairs && pairs[1] in pairs && pairs[2] in pairs;
    }
  }

  /** json["versions"].insert(begin, entry): the insert needs an array. */
  function PrependVersion(doc: Json, m: Version, tree: string): (r: Result<Json, Error>)
    ensures r.Success? <==> HasHistory(doc)
    ensures r.Success? ==> FrontReady(r.value)
  {
    var versions :- Member(doc, "versions");
    if !versions.Arr? then Failure(InsertTypeError)
    else WithMember(doc, "versions", Arr([VersionEntry(m, tree)] + versions.elems))
  }

  /** The document's history array, when it has one. */
  predicate HasHistory(doc: Json) {
    doc.Obj? && "versions" in doc.members && doc.members["versions"].Arr?
  }

  function History(doc: Json): seq<Json>
    requires HasHistory(doc)
  {
    doc.members["versions"].elems
  }

  /** The prepend succeeds exactly on a document with a history array; a
      document that is not an object fails on the lookup, one without an
      array fails on the insert. On success the new entry comes first, the
      old entries follow unchanged, and nothing else changes. */
  lemma PrependVersionSpec(doc: Json, m: Version, tree: string, key: string)
    ensures PrependVersion(doc, m, tree).Success? <==> HasHistory(doc)
    ensures PrependVersion(doc, m, tree).Failure? ==>
      PrependVersion(doc, m, tree).error == if doc.Null? || doc.Obj? then InsertTypeError else IndexTypeError
    ensures PrependVersion(doc, m, tree).Success? ==>
      var d := PrependVersion(doc, m, tree).value;
      && HasHistory(d)
      && History(d) == [VersionEntry(m, tree)] + History(doc)
      && |History(d)| == |History(doc)| + 1
      && d == Obj(doc.members["versions" := Arr(History(d))])
      && (key != "versions" ==> Member(d, key) == Member(doc, key))
  {
  }

  /** The history's front entry, when it is an object. */
  predicate FrontReady(doc: Json) {
    HasHistory(doc) && |History(doc)| > 0 && History(doc)[0].Obj?
  }

  /** json["versions"][0]["git-tree"] = tree. */
  function SetFrontGitTree(doc: Json, tree: string): (r: Result<Json, Error>)
    ensures FrontReady(doc) ==> r.Success? && FrontReady(r.value)
  {
    var versions :- Member(doc, "versions");
    var front :- Element(versions, 0);
    var front' :- WithMember(front, "git-tree", Str(tree));
    match WithElement(versions, 0, front')
    case Success(versions') => WithMember(doc, "versions", versions')
    case Failure(e) => Failure(e)
  }

  /** On a history whose front is an object, setting the git tree succeeds,
      changes only that member of the front entry, and keeps the length and
      every later entry. */
  lemma SetFrontGitTreeSpec(doc: Json, tree: string, key: string)
    requires FrontReady(doc)
    ensures SetFrontGitTree(doc, tree).Success?
    ensures var d := SetFrontGitTree(doc, tree).value;
      && FrontReady(d)
      && |History(d)| == |History(doc)|
      && History(d)[0] == Obj(History(doc)[0].members["git-tree" := Str(tree)])
      && History(d)[1..] == History(doc)[1..]
      && d == Obj(doc.members["versions" := Arr(History(d))])
      && (key != "versions" ==> Member(d, key) == Member(doc, key))
  {
  }

  /** Setting the git tree twice keeps only the second. */
  lemma SetFrontGitTreeTwice(doc: Json, t1: string, t2: string)
    requires FrontReady(doc)
    ensures SetFrontGitTree(doc, t1).Success?
    ensures SetFrontGitTree(SetFrontGitTree(doc, t1).value, t2) == SetFrontGitTree(doc, t2)
  {
    SetFrontGitTreeSpec(doc, t1, "versions");
    var d1 := SetFrontGitTree(doc, t1).value;
    SetFrontGitTreeSpec(d1, t2, "versions");
    SetFrontGitTreeSpec(doc, t2, "versions");
    var front := History(doc)[0].members;
    assert front["git-tree" := Str(t1)]["git-tree" := Str(t2)] == front["git-tree" := Str(t2)];
    var h1 := History(SetFrontGitTree(d1, t2).value);
    var h2 := History(SetFrontGitTree(doc, t2).value);
    assert h1 == [h1[0]] + h1[1..];
    assert h2 == [h2[0]] + h2[1..];
    assert d1.members["versions" := Arr(h1)] == doc.members["versions" := Arr(h2)];
  }

  /** update_sha512 rewrites the git tree of the entry update_versions put in
      front: the result is the entry update_versions would have written with
      the new tree. */
  lemma PrependThenSetTree(doc: Json, m: Version, t1: string, t2: string)
    requires HasHistory(doc) && SchemeOrNone(m.versionType)
    ensures PrependVersion(doc, m, t1).Success?
    ensures SetFrontGitTree(PrependVersion(doc, m, t1).value, t2) == PrependVersion(doc, m, t2)
  {
    PrependVersionSpec(doc, m, t1, "versions");
    var d1 := PrependVersion(doc, m, t1).value;
    SetFrontGitTreeSpec(d1, t2, "versions");
    VersionEntryContents(m, t1);
    VersionEntryContents(m, t2);
    assert VersionEntry(m, t1).members["git-tree" := Str(t2)] == VersionEntry(m, t2).members;
    var h := History(SetFrontGitTree(d1, t2).value);
    assert h == [h[0]] + h[1..];
    assert h == [VersionEntry(m, t2)] + History(doc);
    assert d1.members["versions" := Arr(h)] == doc.members["versions" := Arr(h)];
  }

  // ---------------------------------------------------------------------
  // Paths
  // ---------------------------------------------------------------------

  /** The version file of port `name`, relative to the ports repository:
      versions/<first letter>-/<name>.json. */
  function VersionFilePath(name: string): (r: string)
    requires |name| > 0
    ensures |r| == |name| + 17
    ensures r[..9] == "versions/" && r[9] == name[0] && r[10..12] == "-/"
    ensures r[12..|r| - 5] == name && r[|r| - 5..] == ".json"
  {
    "versions/" + [name[0], '-', '/'] + name + ".json"
  }

  /** Different ports have different version files. */
  lemma VersionFilePathInjective(a: string, b: string)
    requires |a| > 0 && |b| > 0 && VersionFilePath(a) == VersionFilePath(b)
    ensures a == b
  {
    var p, q := VersionFilePath(a), VersionFilePath(b);
    assert |a| == |b|;
    assert a == p[12..|p| - 5];
    assert b == q[12..|q| - 5];
  }

  /** The URL the port's upstream repository is cloned from. */
  function CloneUrl(repo: string): (r: string)
    ensures |r| == |repo| + 23
    ensures r[..19] == "https://github.com/" && r[19..|r| - 4] == repo && r[|r| - 4..] == ".git"
  {
    "https://github.com/" + repo + ".git"
  }

  /** Different REPO values are cloned from different URLs. */
  lemma CloneUrlInjective(a: string, b: string)
    requires CloneUrl(a) == CloneUrl(b)
    ensures a == b
  {
    var p, q := CloneUrl(a), CloneUrl(b);
    assert a == p[19..|p| - 4];
    assert b == q[19..|q| - 4];
  }

  // ---------------------------------------------------------------------
  // The retry loop
  // ---------------------------------------------------------------------

  /** One round of the loop: the result of vcpkg install, and the output of
      git rev-parse HEAD:ports/<name> after the SHA512 commit. */
  datatype Round = Round(install: ProcessResult, tree: string)

  /** How the loop ends: after `rounds` fixes with an empty hash, on a fatal
      error, or because the given rounds ran out. */
  datatype RunOutcome = Done(rounds: nat) | Stopped(error: Error) | Exhausted

  /** The hashes test_install reads in the rounds, in order. */
  function Hashes(rounds: seq<Round>): (r: seq<string>)
    ensures |r| == |rounds|
    decreases |rounds|
  {
    if |rounds| == 0 then []
    else Hashes(rounds[..|rounds| - 1]) + [TestInstall(rounds[|rounds| - 1].install)]
  }

  /** Each round's hash is what test_install reads from that round's vcpkg
      output, so it has at most 128 characters. */
  lemma {:induction false} HashesAt(rounds: seq<Round>, i: nat)
    requires i < |rounds|
    ensures Hashes(rounds)[i] == TestInstall(rounds[i].install)
    ensures |Hashes(rounds)[i]| <= HashLength
    decreases |rounds|
  {
    if i < |rounds| - 1 {
      HashesAt(rounds[..|rounds| - 1], i);
    }
  }

  /** How the loop ends for the hashes it reads, when the SHA512 argument is
      `width` characters long. */
  function LoopOutcome(hashes: seq<string>, width: nat): RunOutcome {
    LoopFrom(hashes, width, 0)
  }

  /** How the loop ends when it starts at round `from`; Done counts every
      round before the one that ends it. */
  function LoopFrom(hashes: seq<string>, width: nat, from: nat): RunOutcome
    decreases |hashes| - from
  {
    if from >= |hashes| then Exhausted
    else if hashes[from] == "" then Done(from)
    else if |hashes[from]| != width then Stopped(SizeMismatch)
    else LoopFrom(hashes, width, from + 1)
  }

  /** A hash the loop accepts: non-empty and as long as the SHA512 argument. */
  predicate Fits(hash: string, width: nat) {
    hash != "" && |hash| == width
  }

  /** How many rounds from `from` on have their hash written before the loop
      ends: the rounds up to the first hash that does not fit. */
  function FixCount(hashes: seq<string>, width: nat, from: nat): (r: nat)
    requires from <= |hashes|
    ensures from <= r <= |hashes|
    ensures forall j :: from <= j < r ==> Fits(hashes[j], width)
    ensures r < |hashes| ==> !Fits(hashes[r], width)
    decreases |hashes| - from
  {
    if from == |hashes| || !Fits(hashes[from], width) then from
    else FixCount(hashes, width, from + 1)
  }

  /** The number of rounds written, for each way the loop ends: all rounds
      before Done(n), every round when they run out, and the rounds before
      the mismatch when it stops. */
  lemma {:induction false} FixCountOutcome(hashes: seq<string>, width: nat, from: nat)
    requires from <= |hashes|
    ensures LoopFrom(hashes, width, from).Done? ==>
      FixCount(hashes, width, from) == LoopFrom(hashes, width, from).rounds
    ensures LoopFrom(hashes, width, from) == Exhausted ==> FixCount(hashes, width, from) == |hashes|
    ensures LoopFrom(hashes, width, from).Stopped? ==> MismatchAt(hashes, width, from, FixCount(hashes, width, from))
    decreases |hashes| - from
  {
    if from < |hashes| && Fits(hashes[from], width) {
      FixCountOutcome(hashes, width, from + 1);
    }
  }

  /** The portfile text and the version history once the loop has written
      the hashes of its first k rounds, each with its round's tree, over
      `text0` and `doc0`: unchanged when k is 0, and otherwise holding the
      k-th hash and the k-th tree. */
  predicate FixedAfter(text: string, doc: Json, text0: string, doc0: Json, at: nat,
                       hashes: seq<string>, rounds: seq<Round>, k: nat)
  {
    if k == 0 then text == text0 && doc == doc0
    else
      && k <= |hashes| && k <= |rounds| && at + |hashes[k - 1]| <= |text0|
      && text == Splice(text0, at, hashes[k - 1])
      && SetFrontGitTree(doc0, rounds[k - 1].tree) == Success(doc)
  }

  /** Writing round k's hash and tree over the state after k rounds gives
      the state after k + 1: the later hash and tree replace the earlier. */
  lemma FixedAfterStep(text: string, doc: Json, text0: string, doc0: Json, at: nat,
                       hashes: seq<string>, rounds: seq<Round>, k: nat)
    requires FixedAfter(text, doc, text0, doc0, at, hashes, rounds, k) && FrontReady(doc0)
    requires k < |hashes| && k < |rounds| && at + |hashes[k]| <= |text0|
    requires k > 0 ==> |hashes[k]| == |hashes[k - 1]|
    ensures |text| == |text0| && FrontReady(doc)
    ensures FixedAfter(Splice(text, at, hashes[k]), SetFrontGitTree(doc, rounds[k].tree).value,
                       text0, doc0, at, hashes, rounds, k + 1)
  {
    if k > 0 {
      SpliceOverwrites(text0, at, hashes[k - 1], hashes[k]);
      SetFrontGitTreeTwice(doc0, rounds[k - 1].tree, rounds[k].tree);
    }
  }

  /** The n-th hash is the first from `from` on that stops the loop on a
      size mismatch. */
  predicate MismatchAt(hashes: seq<string>, width: nat, from: nat, n: nat) {
    && from <= n < |hashes| && hashes[n] != "" && |hashes[n]| != width
    && forall j :: from <= j < n ==> Fits(hashes[j], width)
  }

  /** The loop stops after n fixes exactly when the n-th hash is the first
      empty one and all before it fit. */
  lemma {:induction false} LoopFromDone(hashes: seq<string>, width: nat, from: nat, n: nat)
    ensures LoopFrom(hashes, width, from) == Done(n) <==>
      from <= n < |hashes| && hashes[n] == "" && forall j :: from <= j < n ==> Fits(hashes[j], width)
    decreases |hashes| - from
  {
    if from < |hashes| && Fits(hashes[from], width) {
      LoopFromDone(hashes, width, from + 1, n);
    }
  }

  /** The loop stops on an error exactly when a non-empty hash that does not
      fit comes before any empty one; the error is the size mismatch. */
  lemma {:induction false} LoopFromStopped(hashes: seq<string>, width: nat, from: nat)
    ensures LoopFrom(hashes, width, from).Stopped? <==> exists n: nat :: MismatchAt(hashes, width, from, n)
    ensures LoopFrom(hashes, width, from).Stopped? ==> LoopFrom(hashes, width, from).error == SizeMismatch
    decreases |hashes| - from
  {
    if from < |hashes| {
      if hashes[from] != "" && |hashes[from]| != width {
        assert MismatchAt(hashes, width, from, from);
      } else if hashes[from] != "" {
        var next := from + 1;
        LoopFromStopped(hashes, width, next);
        if exists n: nat :: MismatchAt(hashes, width, next, n) {
          var n: nat :| MismatchAt(hashes, width, next, n);
          assert MismatchAt(hashes, width, from, n);
        }
        if exists n: nat :: MismatchAt(hashes, width, from, n) {
          var n: nat :| MismatchAt(hashes, width, from, n);
          assert MismatchAt(hashes, width, next, n);
        }
      } else {
        forall n: nat ensures !MismatchAt(hashes, width, from, n) {
          if from < n {
            assert !Fits(hashes[from], width);
          }
        }
      }
    }
  }

  /** The loop runs out of rounds exactly when every hash fits. */
  lemma {:induction false} LoopFromExhausted(hashes: seq<string>, width: nat, from: nat)
    ensures LoopFrom(hashes, width, from) == Exhausted <==> forall j :: from <= j < |hashes| ==> Fits(hashes[j], width)
    decreases |hashes| - from
  {
    if from < |hashes| && Fits(hashes[from], width) {
      LoopFromExhausted(hashes, width, from + 1);
    }
  }

  /** Every round's install output is readable. */
  predicate AllReadable(rounds: seq<Round>) {
    forall r <- rounds :: Readable(r.install)
  }

  /** In terms of vcpkg's output: the loop ends after n fixes exactly when
      round n's output reports no hash and every earlier round's hash (what
      test_install read, by HashesAt) is as long as the SHA512 argument. */
  lemma LoopDoneOnOutput(rounds: seq<Round>, width: nat, n: nat)
    requires AllReadable(rounds)
    ensures LoopOutcome(Hashes(rounds), width) == Done(n) <==>
      && n < |rounds| && ReportsNoHash(rounds[n].install)
      && forall j :: 0 <= j < n ==> Fits(Hashes(rounds)[j], width)
  {
    LoopFromDone(Hashes(rounds), width, 0, n);
    if n < |rounds| {
      HashesAt(rounds, n);
      TestInstallEmpty(rounds[n].install);
    }
  }

  /** A SHA512 argument longer than a digest is never replaced: the first
      round reports no hash, or its hash stops the loop on a size mismatch. */
  lemma WideShaNeverFixed(rounds: seq<Round>, width: nat)
    requires width > HashLength && |rounds| > 0
    ensures LoopOutcome(Hashes(rounds), width) == Done(0) || LoopOutcome(Hashes(rounds), width) == Stopped(SizeMismatch)
  {
    HashesAt(rounds, 0);
  }

  // ---------------------------------------------------------------------
  // The Updater object
  // ---------------------------------------------------------------------

  /** An update in progress: the port's name, its loaded portfile, the
      upstream manifest's values, and the two documents the run rewrites, as
      they stand on disk. The paths and the optional local repository are
      not modelled. */
  class Updater {
    const name: string
    const portfile: Portfile
    const manifest: Version
    var baseline: Json
    var history: Json

    ghost predicate Valid()
      reads this, portfile
    {
      |name| > 0 && portfile.Valid()
    }

    constructor (name: string, portfile: Portfile, manifest: Version, baseline: Json, history: Json)
      requires |name| > 0 && portfile.Valid()
      ensures Valid()
      ensures this.name == name && this.portfile == portfile && this.manifest == manifest
      ensures this.baseline == baseline && this.history == history
    {
      this.name, this.portfile, this.manifest := name, portfile, manifest;
      this.baseline, this.history := baseline, history;
    }

    /** Whether update_versions gets through: the REF has the width of
        `head`, and the baseline and the version history accept the new
        version. */
    predicate VersionsUpdated(baseline0: Json, history0: Json, head: string)
      reads portfile
    {
      && |head| == portfile.ref.len
      && UpdateBaseline(baseline0, name, manifest).Success?
      && HasHistory(history0)
    }

    /** update_versions, given the output of git rev-parse HEAD (`head`) and,
        after the commit, of git rev-parse HEAD:ports/<name> (`tree`): writes
        the new REF, stores the manifest's version in the baseline and
        prepends it to the version history. Copying the manifest and the
        commits are not modelled. */
    method UpdateVersions(head: string, tree: string) returns (o: Outcome<Error>)
      requires Valid()
      modifies portfile.content, this`baseline, this`history
      ensures Valid()
      ensures |head| != portfile.ref.len ==> o == Fail(SizeMismatch)
      ensures |head| == portfile.ref.len && UpdateBaseline(old(baseline), name, manifest).Failure? ==>
        o == Fail(UpdateBaseline(old(baseline), name, manifest).error)
      ensures |head| == portfile.ref.len && UpdateBaseline(old(baseline), name, manifest).Success? ==>
        (PrependVersion(old(history), manifest, tree).Failure? ==>
          o == Fail(PrependVersion(old(history), manifest, tree).error))
      ensures o.Pass? <==>
        && |head| == portfile.ref.len
        && UpdateBaseline(old(baseline), name, manifest).Success?
        && PrependVersion(old(history), manifest, tree).Success?
      ensures portfile.content[..] ==
        if |head| == portfile.ref.len then Splice(old(portfile.content[..]), portfile.ref.start, head)
        else old(portfile.content[..])
      ensures baseline ==
        if |head| == portfile.ref.len && UpdateBaseline(old(baseline), name, manifest).Success?
        then UpdateBaseline(old(baseline), name, manifest).value
        else old(baseline)
      ensures history == if o.Pass? then PrependVersion(old(history), manifest, tree).value else old(history)
    {
      o := portfile.SetRef(head);
      if o.Fail? {
        return;
      }
      var b := UpdateBaseline(baseline, name, manifest);
      if b.Failure? {
        return Fail(b.error);
      }
      baseline := b.value;
      var h := PrependVersion(history, manifest, tree);
      if h.Failure? {
        return Fail(h.error);
      }
      history := h.value;
    }

    /** update_sha512, given the hash and the output of git rev-parse
        HEAD:ports/<name> after the amended commit: writes the new SHA512 and
        the front history entry's git tree. */
    method UpdateSha512(hash: string, tree: string) returns (o: Outcome<Error>)
      requires Valid()
      modifies portfile.content, this`history
      ensures Valid()
      ensures |hash| != portfile.sha512.len ==> o == Fail(SizeMismatch)
      ensures |hash| == portfile.sha512.len && SetFrontGitTree(old(history), tree).Failure? ==>
        o == Fail(SetFrontGitTree(old(history), tree).error)
      ensures old(FrontReady(history)) ==> FrontReady(history)
      ensures o.Pass? <==> |hash| == portfile.sha512.len && SetFrontGitTree(old(history), tree).Success?
      ensures portfile.content[..] ==
        if |hash| == portfile.sha512.len then Splice(old(portfile.content[..]), portfile.sha512.start, hash)
        else old(portfile.content[..])
      ensures history == if o.Pass? then SetFrontGitTree(old(history), tree).value else old(history)
    {
      o := portfile.SetSha512(hash);
      if o.Fail? {
        return;
      }
      var h := SetFrontGitTree(history, tree);
      if h.Failure? {
        return Fail(h.error);
      }
      history := h.value;
    }

    /** The loop of run: test the install, and while a hash is reported,
        write it and test again. `rounds` supplies each round's output of
        vcpkg install and git rev-parse; the model stops when they run out. */
    method FixHashes(rounds: seq<Round>) returns (o: RunOutcome)
      requires Valid() && FrontReady(history)
      modifies portfile.content, this`history
      ensures Valid()
      ensures FrontReady(history)
      ensures o == LoopOutcome(Hashes(rounds), portfile.sha512.len)
      ensures o.Done? ==> o.rounds < |rounds| && o.rounds == FixCount(Hashes(rounds), portfile.sha512.len, 0)
      ensures FixedAfter(portfile.content[..], history, old(portfile.content[..]), old(history),
                         portfile.sha512.start, Hashes(rounds), rounds, FixCount(Hashes(rounds), portfile.sha512.len, 0))
    {
      var hashes := Hashes(rounds);
      ghost var width := portfile.sha512.len;
      ghost var start := portfile.content[..];
      ghost var sha := portfile.sha512;
      var i := 0;
      while true
        invariant i <= |rounds| && Valid() && FrontReady(history)
        invariant portfile.sha512 == sha && sha.Within(|start|)
        invariant LoopFrom(hashes, width, i) == LoopOutcome(hashes, width)
        invariant FixCount(hashes, width, i) == FixCount(hashes, width, 0)
        invariant FixedAfter(portfile.content[..], history, start, old(history), sha.start, hashes, rounds, i)
        invariant i > 0 ==> Fits(hashes[i - 1], width)
        decreases |rounds| - i
      {
        if i == |rounds| {
          assert FixCount(hashes, width, 0) == i;
          return Exhausted;
        }
        var hash := hashes[i];
        if hash == "" {
          assert FixCount(hashes, width, 0) == i;
          return Done(i);
        }
        ghost var text, doc := portfile.content[..], history;
        var r := UpdateSha512(hash, rounds[i].tree);
        if r.Fail? {
          assert FixCount(hashes, width, 0) == i;
          return Stopped(r.error);
        }
        FixedAfterStep(text, doc, start, old(history), sha.start, hashes, rounds, i);
        i := i + 1;
      }
    }

    /** run, from the point where the portfile, the upstream manifest and
        the two documents are loaded: update the versions, then fix the hash
        until the install test reports none. Setting up the test and pushing
        are not modelled. */
    method Run(head: string, tree: string, rounds: seq<Round>) returns (o: RunOutcome)
      requires Valid() && SchemeOrNone(manifest.versionType)
      modifies portfile.content, this`baseline, this`history
      ensures Valid()
      ensures |head| != portfile.ref.len ==> o == Stopped(SizeMismatch)
      ensures |head| == portfile.ref.len && UpdateBaseline(old(baseline), name, manifest).Failure? ==>
        o == Stopped(UpdateBaseline(old(baseline), name, manifest).error)
      ensures |head| == portfile.ref.len && UpdateBaseline(old(baseline), name, manifest).Success? ==>
        o == if HasHistory(old(history)) then LoopOutcome(Hashes(rounds), portfile.sha512.len)
             else Stopped(PrependVersion(old(history), manifest, tree).error)
      ensures o.Done? ==> o.rounds < |rounds|
      ensures baseline ==
        if |head| == portfile.ref.len && UpdateBaseline(old(baseline), name, manifest).Success?
        then UpdateBaseline(old(baseline), name, manifest).value
        else old(baseline)
      ensures !VersionsUpdated(old(baseline), old(history), head) ==>
        && history == old(history)
        && portfile.content[..] ==
           if |head| == portfile.ref.len then Splice(old(portfile.content[..]), portfile.ref.start, head)
           else old(portfile.content[..])
      ensures VersionsUpdated(old(baseline), old(history), head) ==>
        var k := FixCount(Hashes(rounds), portfile.sha512.len, 0);
        && (o.Done? ==> o.rounds == k)
        && history == PrependVersion(old(history), manifest, if k == 0 then tree else rounds[k - 1].tree).value
        && FixedAfter(portfile.content[..], history,
                      Splice(old(portfile.content[..]), portfile.ref.start, head),
                      PrependVersion(old(history), manifest, tree).value,
                      portfile.sha512.start, Hashes(rounds), rounds, k)
    {
      var r := UpdateVersions(head, tree);
      if r.Fail? {
        assert !VersionsUpdated(old(baseline), old(history), head);
        return Stopped(r.error);
      }
      assert VersionsUpdated(old(baseline), old(history), head);
      ghost var updated := Splice(old(portfile.content[..]), portfile.ref.start, head);
      ghost var prepended := PrependVersion(old(history), manifest, tree).value;
      assert portfile.content[..] == updated && history == prepended;
      o := FixHashes(rounds);
      ghost var k := FixCount(Hashes(rounds), portfile.sha512.len, 0);
      if k > 0 {
        PrependThenSetTree(old(history), manifest, tree, rounds[k - 1].tree);
      }
    }
  }
}
