/** The manifest model (src/manifest.h, src/manifest.cpp): the version
    scheme, the version and the port-version read from a port's vcpkg.json. */
module Manifests {
  import opened Wrappers
  import opened Utils
  import opened Json

  /** The four version schemes a manifest may use; the key names the scheme. */
  const Schemes: set<string> := {"version", "version-semver", "version-date", "version-string"}

  const PortVersionKey := "port-version"

  /** One member of the parsed manifest object, in iteration order. A parsed
      object is a std::map, so a real object lists its keys once each, in
      ascending order (KeysAscending). */
  type Item = (string, Json)

  /** The three values a Manifest holds. */
  datatype Version = Version(versionType: string, version: string, portVersion: int)

  /** A default-constructed Manifest: empty strings and port-version 0. */
  const Default := Version("", "", 0)

  /** Whether reading this member throws: a scheme key whose value is not a
      string, or a port-version that is neither a number nor a boolean. */
  predicate Rejects(item: Item) {
    || (item.0 in Schemes && !item.1.Str?)
    || (item.0 == PortVersionKey && !(item.1.Int? || item.1.Bool?))
  }

  /** The effect of one member on the values read so far. */
  function Step(v: Version, item: Item): (r: Result<Version, Error>)
    ensures r.Failure? <==> Rejects(item)
    ensures r.Failure? ==> r.error == GetTypeError
    ensures r.Success? && item.0 in Schemes ==> r.value.versionType == item.0 && Str(r.value.version) == item.1
    ensures r.Success? && !IsRelevant(item) ==> r.value == v
  {
    var (k, j) := item;
    var v' :- if k in Schemes then
        match GetString(j)
        case Success(s) => Success(v.(versionType := k, version := s))
        case Failure(e) => Failure(e)
      else Success(v);
    if k == PortVersionKey then
      match GetInt(j)
      case Success(n) => Success(v'.(portVersion := n))
      case Failure(e) => Failure(e)
    else Success(v')
  }

  /** The values after reading `items` in order, starting from `v`. */
  function ReadFrom(v: Version, items: seq<Item>): Result<Version, Error>
    decreases |items|
  {
    if |items| == 0 then Success(v)
    else
      var w :- ReadFrom(v, items[..|items| - 1]);
      Step(w, items[|items| - 1])
  }

  /** The values a manifest with members `items` yields. */
  function ReadVersion(items: seq<Item>): Result<Version, Error> {
    ReadFrom(Default, items)
  }

  /** The position of the last member whose key is in `keys`, if any. */
  function LastWith(items: seq<Item>, keys: set<string>): (r: Option<nat>)
    ensures r.Some? ==> r.value < |items| && items[r.value].0 in keys
    ensures r.Some? ==> forall j :: r.value < j < |items| ==> items[j].0 !in keys
    ensures r.None? ==> forall j :: 0 <= j < |items| ==> items[j].0 !in keys
    decreases |items|
  {
    if |items| == 0 then None
    else if items[|items| - 1].0 in keys then Some(|items| - 1)
    else LastWith(items[..|items| - 1], keys)
  }

  /** A member whose key the reader looks at: a scheme or the port-version. */
  predicate IsRelevant(item: Item) {
    item.0 in Schemes || item.0 == PortVersionKey
  }

  /** The members whose keys the reader looks at, in their order: every
      relevant member is kept, and nothing else. */
  function Relevant(items: seq<Item>): (r: seq<Item>)
    ensures |r| <= |items|
    ensures forall it <- r :: it in items && IsRelevant(it)
    ensures forall it <- items :: IsRelevant(it) ==> it in r
    ensures r == [] <==> forall it <- items :: !IsRelevant(it)
    decreases |items|
  {
    if |items| == 0 then []
    else
      var last := items[|items| - 1];
      var rest := Relevant(items[..|items| - 1]);
      assert forall it <- items :: it == last || it in items[..|items| - 1];
      if IsRelevant(last) then rest + [last] else rest
  }

  /** Filtering keeps the order: the relevant members of `a + b` are those
      of `a` followed by those of `b`. */
  lemma {:induction false} RelevantAppend(a: seq<Item>, b: seq<Item>)
    ensures Relevant(a + b) == Relevant(a) + Relevant(b)
    decreases |b|
  {
    if |b| > 0 {
      var init := b[..|b| - 1];
      assert (a + b)[..|a + b| - 1] == a + init;
      RelevantAppend(a, init);
    } else {
      assert a + b == a;
    }
  }

  // ---------------------------------------------------------------------
  // Properties of the reader
  // ---------------------------------------------------------------------

  /** Reading fails exactly when some member is rejected, and then with the
      library's type error. */
  lemma {:induction false} ReadFromFails(v: Version, items: seq<Item>)
    ensures ReadFrom(v, items).Failure? <==> exists i :: 0 <= i < |items| && Rejects(items[i])
    ensures ReadFrom(v, items).Failure? ==> ReadFrom(v, items).error == GetTypeError
    decreases |items|
  {
    if |items| > 0 {
      var init := items[..|items| - 1];
      ReadFromFails(v, init);
      if exists i :: 0 <= i < |init| && Rejects(init[i]) {
        var i :| 0 <= i < |init| && Rejects(init[i]);
        assert Rejects(items[i]);
      }
      if exists i :: 0 <= i < |items| && Rejects(items[i]) {
        var i :| 0 <= i < |items| && Rejects(items[i]);
        if i < |items| - 1 {
          assert Rejects(init[i]);
        }
      }
    }
  }

  /** After a successful read the scheme and version come from the last
      member keyed by a scheme, and the port-version from the last
      port-version member; without such a member the starting value stays. */
  lemma {:induction false} ReadFromLast(v: Version, items: seq<Item>)
    requires ReadFrom(v, items).Success?
    ensures var r := ReadFrom(v, items).value;
      match LastWith(items, Schemes)
      case None => r.versionType == v.versionType && r.version == v.version
      case Some(i) => r.versionType == items[i].0 && items[i].1 == Str(r.version)
    ensures var r := ReadFrom(v, items).value;
      match LastWith(items, {PortVersionKey})
      case None => r.portVersion == v.portVersion
      case Some(i) => GetInt(items[i].1) == Success(r.portVersion)
    decreases |items|
  {
    if |items| > 0 {
      ReadFromLast(v, items[..|items| - 1]);
    }
  }

  /** A successful read of a manifest leaves a scheme name (or nothing) as
      the version type and a port-version that fits an int. */
  lemma ReadVersionRange(items: seq<Item>)
    requires ReadVersion(items).Success?
    ensures var r := ReadVersion(items).value;
      && (r.versionType in Schemes || (r.versionType == "" && r.version == ""))
      && -0x8000_0000 <= r.portVersion < 0x8000_0000
  {
    ReadFromLast(Default, items);
  }

  /** Members with other keys are ignored: reading only the relevant members
      gives the same outcome. */
  lemma {:induction false} ReadFromRelevant(v: Version, items: seq<Item>)
    ensures ReadFrom(v, Relevant(items)) == ReadFrom(v, items)
    decreases |items|
  {
    if |items| > 0 {
      var init := items[..|items| - 1];
      var last := items[|items| - 1];
      ReadFromRelevant(v, init);
      if IsRelevant(last) {
        assert (Relevant(init) + [last])[..|Relevant(init)|] == Relevant(init);
      } else if ReadFrom(v, init).Success? {
        assert Step(ReadFrom(v, init).value, last) == ReadFrom(v, init);
      }
    }
  }

  /** Once a member is rejected, later members do not matter. */
  lemma {:induction false} ReadFromStopsAtFailure(v: Version, items: seq<Item>, i: nat)
    requires i <= |items| && ReadFrom(v, items[..i]).Failure?
    ensures ReadFrom(v, items) == ReadFrom(v, items[..i])
    decreases |items| - i
  {
    if i < |items| {
      assert items[..i + 1][..i] == items[..i];
      ReadFromStopsAtFailure(v, items, i + 1);
    } else {
      assert items[..i] == items;
    }
  }

  // ---------------------------------------------------------------------
  // Iteration order of a parsed object
  // ---------------------------------------------------------------------

  /** std::string's operator<: lexicographic by character, a proper prefix
      first. Characters compare by code point, which is the order of their
      UTF-8 bytes taken as unsigned. */
  predicate KeyLess(a: string, b: string)
    decreases |a|
  {
    if |a| == 0 then |b| > 0
    else if |b| == 0 then false
    else if a[0] != b[0] then a[0] < b[0]
    else KeyLess(a[1..], b[1..])
  }

  /** The members of a std::map-backed object: keys strictly ascending. */
  predicate KeysAscending(items: seq<Item>) {
    forall i, j :: 0 <= i < j < |items| ==> KeyLess(items[i].0, items[j].0)
  }

  /** The four scheme names in the order a parsed object lists them. */
  lemma SchemeKeyOrder()
    ensures KeyLess("version", "version-date")
    ensures KeyLess("version-date", "version-semver")
    ensures KeyLess("version-semver", "version-string")
  {
  }

  /** In a parsed object the scheme read is the greatest scheme key present:
      every other scheme key in the object orders before it. */
  lemma GreatestSchemeWins(items: seq<Item>)
    requires KeysAscending(items) && ReadVersion(items).Success?
    requires exists j :: 0 <= j < |items| && items[j].0 in Schemes
    ensures var r := ReadVersion(items).value;
      && r.versionType in Schemes
      && forall j :: 0 <= j < |items| && items[j].0 in Schemes && items[j].0 != r.versionType ==>
           KeyLess(items[j].0, r.versionType)
  {
    ReadFromLast(Default, items);
    var k :| 0 <= k < |items| && items[k].0 in Schemes;
    assert LastWith(items, Schemes).Some?;
  }

  /** A manifest that carries "version-string" next to other schemes is read
      as a version-string manifest. */
  lemma VersionStringWins(items: seq<Item>)
    requires KeysAscending(items) && ReadVersion(items).Success?
    requires exists j :: 0 <= j < |items| && items[j].0 == "version-string"
    ensures ReadVersion(items).value.versionType == "version-string"
  {
    var j :| 0 <= j < |items| && items[j].0 == "version-string";
    GreatestSchemeWins(items);
    NoSchemeAfterVersionString(ReadVersion(items).value.versionType);
  }

  /** No scheme name orders after "version-string". */
  lemma NoSchemeAfterVersionString(t: string)
    requires t in Schemes
    ensures !KeyLess("version-string", t)
  {
    SchemeCases(t);
    if t == "version" {
      VersionStringAfterVersion();
    } else if t == "version-date" {
      VersionStringAfterDate();
    } else if t == "version-semver" {
      VersionStringAfterSemver();
    } else {
      KeyLessIrreflexive(t);
    }
  }

  /** The four scheme names, one by one. */
  lemma SchemeCases(t: string)
    requires t in Schemes
    ensures t == "version" || t == "version-date" || t == "version-semver" || t == "version-string"
  {
  }

  lemma VersionStringAfterVersion()
    ensures !KeyLess("version-string", "version")
  {
  }

  lemma VersionStringAfterDate()
    ensures !KeyLess("version-string", "version-date")
  {
  }

  lemma VersionStringAfterSemver()
    ensures !KeyLess("version-string", "version-semver")
  {
  }

  /** No key orders before itself. */
  lemma {:induction false} KeyLessIrreflexive(a: string)
    ensures !KeyLess(a, a)
    decreases |a|
  {
    if |a| > 0 {
      KeyLessIrreflexive(a[1..]);
    }
  }

  // ---------------------------------------------------------------------
  // The Manifest object
  // ---------------------------------------------------------------------

  /** A read manifest. The path it was read from, and copy_to, which copies
      that file, are not modelled. */
  class Manifest {
    var versionType: string
    var version: string
    var portVersion: int

    function State(): Version
      reads this
    {
      Version(versionType, version, portVersion)
    }

    /** Manifest(): the member initialisers. */
    constructor ()
      ensures State() == Default
    {
      versionType, version, portVersion := "", "", 0;
    }

    /** The loop of Manifest(path) over the parsed object's members. */
    method ReadItems(items: seq<Item>) returns (o: Outcome<Error>)
      modifies this
      ensures o.Pass? <==> ReadFrom(old(State()), items).Success?
      ensures o.Fail? ==> o.error == ReadFrom(old(State()), items).error
      ensures o.Pass? ==> State() == ReadFrom(old(State()), items).value
    {
      ghost var start := State();
      for i := 0 to |items|
        invariant ReadFrom(start, items[..i]) == Success(State())
      {
        assert items[..i + 1][..i] == items[..i];
        var (k, v) := items[i];
        if k in Schemes {
          versionType := k;
          var s := GetString(v);
          if s.Failure? {
            ReadFromStopsAtFailure(start, items, i + 1);
            return Fail(s.error);
          }
          version := s.value;
        }
        if k == PortVersionKey {
          var n := GetInt(v);
          if n.Failure? {
            ReadFromStopsAtFailure(start, items, i + 1);
            return Fail(n.error);
          }
          portVersion := n.value;
        }
      }
      assert items[..|items|] == items;
      return Pass;
    }
  }

  /** Manifest(path): parses the file (here: takes the parsed object's
      members in iteration order, see KeysAscending) and reads them; a type error ends the
      program, here it is returned. */
  method Open(items: seq<Item>) returns (r: Result<Manifest, Error>)
    ensures r.Success? <==> ReadVersion(items).Success?
    ensures r.Failure? ==> r.error == ReadVersion(items).error
    ensures r.Success? ==> fresh(r.value) && r.value.State() == ReadVersion(items).value
  {
    var m := new Manifest();
    var o := m.ReadItems(items);
    if o.Fail? {
      return Failure(o.error);
    }
    return Success(m);
  }
}
