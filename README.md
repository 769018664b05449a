# update-vcpkg-port, modelled in Dafny

update-vcpkg-port updates one port of a vcpkg ports registry to the head of
its upstream GitHub repository. It first reads the port's `portfile.cmake`
and finds the `REPO`, `REF` and `SHA512` arguments of its
`vcpkg_from_github(...)` call. It then reads the upstream `vcpkg.json`
manifest for the version scheme, the version and the port-version. With
those it:

- writes the new commit into `REF`;
- records the version in `versions/baseline.json`;
- prepends an entry to the port's version history;
- runs `vcpkg install` until vcpkg stops reporting an archive hash that
  differs from the `SHA512` in the portfile.

This project models the deterministic core of that tool and proves what it
does:

- `wrappers.dfy` (module `Wrappers`) holds the `Result` and `Outcome`
  return types. The tool's `error()` calls end the process; here they become
  failure results that carry the message.
- `string_search.dfy` (module `StringSearch`) holds `std::string::find`,
  `find_first_of` and `find_first_not_of`. `npos` is modelled as 2^64-1. The
  lemmas prove that each search returns the first match, and that `npos`
  means no match.
- `utils.dfy` (module `Utils`):
  - `overwrite_span` is modelled on an `array<char>`: a loop that copies in
    place, and a size check that fails before anything is touched;
  - `Splice` is the function that specifies it on sequences.
- `json.dfy` (module `Json`) holds the part of nlohmann::json that the tool
  relies on:
  - `operator[]` on objects and arrays, including null promotion and array
    padding;
  - `get<int>`, with 32-bit narrowing;
  - the string conversion;
  - initializer-list objects.
- `portfile.dfy` (module `Portfiles`) models the portfile:
  - `Extract` is a reference definition of the argument scan, given by the
    located call region, its separator-delimited tokens, the key/value walk
    over them, and the three "missing" checks;
  - class `Portfile` holds the buffer and the three ranges;
  - `ExtractValues` and `ScanArguments` are the scan loop of
    `extract_values`, proved equal to `Extract`;
  - `SetRef` and `SetSha512` are the fixed-width overwrites. They are proved
    to keep the other arguments. A rescan of the buffer gives the same ranges
    when two conditions hold: the ranges before the call were those of a scan
    of the buffer (`old(Scanned())`), and the new text holds no separator.
- `manifest.dfy` (module `Manifests`):
  - `ReadFrom` and `ReadVersion` define what the constructor's loop computes;
  - `KeysAscending` states the order in which a parsed object lists its
    members. Under it, `GreatestSchemeWins` shows that the scheme read is the
    greatest scheme key present;
  - class `Manifest` runs that loop, proved against `ReadFrom`.
- `updater.dfy` (module `Updating`) covers the updater:
  - `test_install`'s hash extraction;
  - the baseline and version-history updates;
  - the version-file path and the clone URL;
  - class `Updater`, whose `UpdateVersions`, `UpdateSha512`, `FixHashes`
    and `Run` follow `update_versions`, `update_sha512` and the retry loop
    of `run`. Each method states the buffer and documents it leaves on
    every exit, failures included, since the source saves each file as
    soon as it is written.

  The output of the git and vcpkg commands is given to these methods as
  parameters.

Three behaviours of the code are worth knowing, and the model keeps them:

- the history entry is prepended unconditionally (src/updater.cpp:89-93),
  with no reconciliation against an existing entry of the same version;
- the install test ignores the exit code (src/updater.cpp:133);
- the declared fix mode (src/config.h:16) is never read.

## Model

| member | source | states |
|---|---|---|
| StringSearch.FindChar | src/portfile.cpp:29-31 | `find(c, from)` returns npos or a position at or after `from` that holds `c` |
| StringSearch.FindFirstOf | src/portfile.cpp:45 | `find_first_of` returns npos or a position at or after `from` holding one of the characters |
| StringSearch.FindFirstNotOf | src/portfile.cpp:43 | `find_first_not_of` returns npos or a position at or after `from` holding none of the characters |
| StringSearch.Find | src/portfile.cpp:20 | `find(pat, from)` returns npos or a position at or after `from` where `pat` occurs |
| StringSearch.FindCharSkips | src/portfile.cpp:29-31 | every position that `find(c)` passes over does not hold `c` |
| StringSearch.FindFirstOfSkips | src/portfile.cpp:45 | every position that `find_first_of` passes over is outside the set |
| StringSearch.FindFirstNotOfSkips | src/portfile.cpp:43 | every position that `find_first_not_of` passes over is inside the set |
| StringSearch.FindSkips | src/portfile.cpp:20 | `find(pat)` passes over no occurrence of `pat` |
| StringSearch.FindNposMeansAbsent | src/portfile.cpp:20-21 | in a string shorter than npos, `find` returns npos exactly when the pattern occurs nowhere at or after `from` |
| StringSearch.FindIsFirst | src/updater.cpp:138 | the first occurrence at or after `from` is what `find` returns |
| StringSearch.FindCharIsFirst | src/portfile.cpp:29-31 | the first occurrence of a character at or after `from` is what `find(c)` returns |
| StringSearch.FindUnchangedPrefix | src/portfile.cpp:20 | `find` returns the same match in any text that agrees up to the end of that match |
| Utils.Splice | src/utils.cpp:10 | the overwritten text keeps its length, holds `str` in the range and the old characters everywhere else |
| Utils.SpliceReadsBack | src/utils.cpp:10 | after an overwrite, the range reads back as the new string |
| Utils.SpliceKeepsDisjoint | src/utils.cpp:10 | a range disjoint from the overwritten one reads as before |
| Utils.SpliceOverwrites | src/utils.cpp:10 | overwriting twice leaves the second string, so writing the same string twice equals writing it once |
| Utils.SpliceOwnContents | src/utils.cpp:10 | writing a range's own contents back changes nothing |
| Utils.OverwriteSpan | src/utils.cpp:7-11 | fails with the size-mismatch message exactly when the sizes differ, and then leaves the buffer alone; otherwise the buffer becomes `Splice(old buffer, start, str)` |
| Json.Int32 | src/manifest.cpp:32 | `static_cast<int>` narrowing: the result fits 32 bits, is congruent to the input modulo 2^32, and equals any input that already fits |
| Json.GetInt | src/manifest.cpp:32 | `get<int>` succeeds exactly on numbers and booleans, narrows numbers to int, reads true as 1 and false as 0, and otherwise throws type_error 302 |
| Json.GetString | src/manifest.cpp:29 | conversion to std::string succeeds exactly on strings, yields the string, and otherwise throws type_error 302 |
| Json.Member | src/updater.cpp:68 | reading `j[key]` succeeds exactly on null or an object, reads a present key of an object as that member's value, reads a missing key (and any key of null) as null, and otherwise throws type_error 305 |
| Json.WithMember | src/updater.cpp:68 | `j[key] = v` succeeds exactly on null or an object, yields an object whose keys are the old ones plus `key`, and otherwise throws type_error 305 |
| Json.Element | src/updater.cpp:157 | reading `j[idx]` succeeds exactly on null or an array, reads an index inside an array as that element, reads an index past the end as null, and otherwise throws type_error 305 |
| Json.WithMemberThenMember | src/updater.cpp:68 | `j[key] = v` then `j[key]` yields `v`; every other key reads as before |
| Json.WithMemberTwice | src/updater.cpp:68 | setting a member twice keeps only the second value |
| Json.ObjectOfKeys | src/updater.cpp:68-71 | an initializer-list object has exactly the keys of its pairs |
| Json.ObjectOf | src/updater.cpp:68-71 | the object an initializer list of pairs builds; its meaning is stated by ObjectOfKeys and ObjectOfFirstWins |
| Json.ObjectOfFirstWins | src/updater.cpp:89-93 | in an initializer-list object each key maps to the value of its first pair |
| Json.WithElement | src/updater.cpp:157 | `j[idx] = v` succeeds exactly on null or an array, yields an array, and otherwise throws type_error 305 |
| Json.WithElementThenElement | src/updater.cpp:157 | `j[idx] = v` then `j[idx]` yields `v`; other elements read as before; the array grows only to `idx + 1` |
| Portfiles.Locate | src/portfile.cpp:29-32 | a located region has its `(` before its `)`, both inside the text |
| Portfiles.LocateSpec | src/portfile.cpp:20-32 | the search fails only without the marker (not from github) or without a `(` or `)` (syntax error); on success the marker, then `(`, then `)` come in order |
| Portfiles.LocateFirst | src/portfile.cpp:29-32 | the `(` is the first one after the marker, and the `)` is the first one after the `(`; parentheses are not depth-matched |
| Portfiles.Extract | src/portfile.cpp:18-61 | the reference definition of extract_values: locate the call, walk its tokens as key/value pairs, then require all three arguments; its meaning is stated by ExtractErrors, ExtractSucceeds, ExtractMissing, ExtractLastValue and ExtractWellFormed |
| Portfiles.Tokens | src/portfile.cpp:42-55 | the maximal separator-free runs of a stretch, left to right; stated by TokensBounds, TokensRuns, TokensOrdered and TokenAt |
| Portfiles.Assign | src/portfile.cpp:51-54 | the walk pairing tokens as key and value, last pair wins; stated by AssignShape and AssignSpec |
| Portfiles.RunEnd | src/portfile.cpp:45 | a run ends at its bound or at a separator |
| Portfiles.RunEndRun | src/portfile.cpp:42-45 | a run holds no separator |
| Portfiles.RunEndIsFindFirstOf | src/portfile.cpp:45 | inside a region ending at a separator, a run ends where `find_first_of(separators)` stops |
| Portfiles.TokensBounds | src/portfile.cpp:42-50 | every token is a non-empty range of the region that starts at a non-separator |
| Portfiles.TokensRuns | src/portfile.cpp:42-50 | every token is a run of non-separators inside the region |
| Portfiles.TokensOrdered | src/portfile.cpp:43-55 | tokens come in order, and each ends strictly before the next begins |
| Portfiles.OrderedCons | src/portfile.cpp:55 | a range ending before an ordered sequence can lead it |
| Portfiles.TokenAt | src/portfile.cpp:45 | a token starting at a non-separator runs to the position `find_first_of` returns, and the remaining tokens follow it |
| Portfiles.TokensSkip | src/portfile.cpp:43 | leading separators contribute no token |
| Portfiles.TokenRun | src/portfile.cpp:42-50 | any token is a non-empty, separator-free range inside the region |
| Portfiles.AssignShape | src/portfile.cpp:47-48 | the key/value walk fails exactly when a key is left without a value, and then with a syntax error |
| Portfiles.AssignSpec | src/portfile.cpp:51-54 | after a successful walk, each of REPO, REF and SHA512 holds the value of the last pair with its key, or its earlier value when no pair has that key |
| Portfiles.LastValueCons | src/portfile.cpp:51-55 | the last value over the whole walk follows from the last value over the later pairs, with the first pair's effect as the default |
| Portfiles.LastValueLater | src/portfile.cpp:51-55 | a last pair for a key among the later pairs is also the last pair of the whole walk |
| Portfiles.LastValueFirst | src/portfile.cpp:51-55 | when no later pair has the key, only the first pair can decide its value |
| Portfiles.MessagesDistinct | src/portfile.cpp:18-61 | the five error messages of the scan are pairwise distinct |
| Portfiles.RecordedIffPresent | src/portfile.cpp:51-60 | after a successful walk, a parameter's range is non-empty exactly when some pair has its key |
| Portfiles.Record | src/portfile.cpp:51-54 | one pair of the walk: a REPO, REF or SHA512 key sets that range, any other key changes nothing; stated over the walk by AssignSpec and RecordedIffPresent |
| Portfiles.ExtractErrors | src/portfile.cpp:18-61 | a failed scan fails as the call search did, or with a syntax error or a missing-parameter message |
| Portfiles.ExtractNotFromGithub | src/portfile.cpp:20-21 | the scan reports "not from github" exactly when the marker occurs nowhere |
| Portfiles.ExtractSyntaxError | src/portfile.cpp:29-48 | the scan reports a syntax error exactly when the marker occurs and either a parenthesis is missing or the region's tokens are odd in number |
| Portfiles.ExtractSucceeds | src/portfile.cpp:18-61 | the scan succeeds exactly when the call is located, its tokens pair up, and REPO, REF and SHA512 each key some pair |
| Portfiles.ExtractMissing | src/portfile.cpp:58-60 | a missing parameter is reported by name, with REPO checked first, then REF, then SHA512 |
| Portfiles.RequireAll | src/portfile.cpp:58-60 | the three missing-parameter checks after the walk; stated by ExtractMissing and ExtractSucceeds |
| Portfiles.ExtractLastValue | src/portfile.cpp:51-55 | on success each parameter's range is the value of the last pair with its key; other keys are skipped |
| Portfiles.ExtractRangeInRegion | src/portfile.cpp:42-50 | on success each recorded range is non-empty, separator-free and strictly inside the argument region |
| Portfiles.ValueIndex | src/portfile.cpp:51-54 | on success a parameter's range is the value token of a pair with its key |
| Portfiles.PairValuesDisjoint | src/portfile.cpp:51-55 | the values of pairs with different keys are disjoint ranges |
| Portfiles.ValuesDisjoint | src/portfile.cpp:51-55 | on success the ranges of two different parameters are disjoint |
| Portfiles.ExtractDisjoint | src/portfile.cpp:51-60 | on success the REPO, REF and SHA512 ranges are pairwise disjoint |
| Portfiles.ExtractWellFormed | src/portfile.cpp:49-60 | on success all three ranges are non-empty, inside the text and pairwise disjoint |
| Portfiles.Located | src/portfile.cpp:29-32 | the three searches of extract_values locate the call, and the scan then walks the tokens between the `(` and the `)` |
| Portfiles.LocateOf | src/portfile.cpp:20-32 | the region is given by the three searches |
| Portfiles.LocateParts | src/portfile.cpp:20-32 | a located region's `(` and `)` are what the two character searches return |
| Portfiles.NoMarker | src/portfile.cpp:20-21 | without the marker the scan fails with "The port is not from github" |
| Portfiles.NoParens | src/portfile.cpp:29-32 | with the marker but no `(` after it, or no `)` after that, the scan fails with a syntax error |
| Portfiles.SeparatorBy | src/portfile.cpp:45-50 | `find_first_of(separators)` stops at or before the region's closing `)`, so the checks at 46 and 50 never fire |
| Portfiles.ScanDone | src/portfile.cpp:43-44 | when the next non-separator lies past the region end (including npos), no tokens remain and the loop ends |
| Portfiles.ScanToken | src/portfile.cpp:43-45 | the next token is delimited by `find_first_not_of` and `find_first_of`, and it heads the remaining tokens |
| Portfiles.ScanValueMissing | src/portfile.cpp:47-48 | a key whose value would start past the region end makes the walk fail with a syntax error |
| Portfiles.ScanPair | src/portfile.cpp:43-55 | a found key and value lie strictly increasing inside the region; the walk records the pair and continues after the value, so `key_begin` strictly increases |
| Portfiles.RunEndSame | src/portfile.cpp:45 | runs end at the same place in texts that agree on which positions are separators |
| Portfiles.TokensSame | src/portfile.cpp:42-55 | texts that agree on which positions are separators have the same tokens |
| Portfiles.TokensSameRun | src/portfile.cpp:42-55 | as TokensSame, for a stretch that starts with a token |
| Portfiles.AssignSameKeys | src/portfile.cpp:51-54 | the walk reads only the text of the keys |
| Portfiles.BeforeParen | src/portfile.cpp:29 | a `(` at or after an occurrence of a pattern that holds no `(` lies past the end of that occurrence |
| Portfiles.MarkerBeforeOpen | src/portfile.cpp:20-29 | the `(` of the call comes after the whole marker |
| Portfiles.SearchesUnchanged | src/portfile.cpp:20-31 | the three searches give the same positions in a text that agrees up to the `(` and has the same first `)` after it |
| Portfiles.LocateUnchanged | src/portfile.cpp:20-32 | such a text locates the same call |
| Portfiles.KeysUnchanged | src/portfile.h:26-27 | overwriting one value with text of its length leaves the text of every key as it was |
| Portfiles.SpliceSeparatorFree | src/portfile.h:26-27 | overwriting a run of non-separators with separator-free text keeps every separator where it was |
| Portfiles.TokensAfterOverwrite | src/portfile.h:26-27 | such an overwrite leaves the tokens of any stretch unchanged |
| Portfiles.LocateAfterOverwrite | src/portfile.h:26-27 | such an overwrite inside the argument region locates the same call |
| Portfiles.ExtractAfterOverwrite | src/portfile.h:26-28 | overwriting a recorded argument with separator-free text of its length leaves the scan's result unchanged, so a saved portfile loads back to the same ranges |
| Portfiles.Portfile.constructor | src/portfile.cpp:63-64 | the buffer holds the file text, and the ranges are empty (default) |
| Portfiles.Portfile.Repo | src/portfile.h:23 | `repo()` is the current buffer text of the REPO range |
| Portfiles.Portfile.Ref | src/portfile.h:24 | `ref()` is the current buffer text of the REF range, so it reflects earlier overwrites |
| Portfiles.Portfile.Sha512 | src/portfile.h:25 | `sha512()` is the current buffer text of the SHA512 range |
| Portfiles.Portfile.SetRef | src/portfile.h:26 | fails on a length mismatch and leaves the buffer alone; otherwise overwrites only the REF range, so `ref()` is the new text while `repo()` and `sha512()` read as before; the ranges stay valid; when the ranges were those of a scan of the buffer and `str` holds no separator, a rescan of the new buffer gives the same ranges |
| Portfiles.Portfile.SetSha512 | src/portfile.h:27 | as SetRef, over the SHA512 range, including the rescan under the same two conditions |
| Portfiles.Portfile.Save | src/portfile.h:28 | `save` writes exactly the current buffer |
| Portfiles.Portfile.ExtractValues | src/portfile.cpp:18-61 | the scan succeeds exactly when `Extract` does, fails with its message, and on success records its ranges, which are then non-empty, inside the buffer and disjoint |
| Portfiles.Portfile.ScanArguments | src/portfile.cpp:40-56 | the loop fails (with a syntax error) exactly when the key/value walk over the region's tokens does, and otherwise leaves the walk's ranges |
| Portfiles.Load | src/portfile.cpp:63-64 | constructing a Portfile succeeds exactly when the scan does; the buffer equals the text, so save after load reproduces it, and the ranges are those of the scan |
| Manifests.Step | src/manifest.cpp:26-32 | one member throws exactly when it is rejected (a scheme key with a non-string value, or a port-version that is neither number nor boolean), with type_error 302; a scheme member sets the type to its key and the version to its string; other keys change nothing |
| Manifests.ReadFrom | src/manifest.cpp:24-33 | the values after reading the members in order from a starting value; its meaning is stated by ReadFromFails, ReadFromLast, ReadFromRelevant and ReadFromStopsAtFailure |
| Manifests.ReadVersion | src/manifest.cpp:12-34 | `ReadFrom` started from a default Manifest; its range is stated by ReadVersionRange |
| Manifests.LastWith | src/manifest.cpp:24-30 | the position of the last member whose key is in a set, or none when no member's key is |
| Manifests.Relevant | src/manifest.cpp:24-33 | keeps every member with a scheme or port-version key and no other; the result is empty exactly when no member is relevant |
| Manifests.RelevantAppend | src/manifest.cpp:24-33 | the kept members stay in their order: the relevant members of `a + b` are those of `a` followed by those of `b` |
| Manifests.ReadFromFails | src/manifest.cpp:29-32 | reading fails exactly when some scheme member is not a string or some port-version is neither a number nor a boolean, and then with type_error 302 |
| Manifests.ReadFromLast | src/manifest.cpp:15-32 | the scheme and version come from the last scheme member, the port-version from the last port-version member; without such members the defaults stay |
| Manifests.ReadVersionRange | src/manifest.cpp:15-28 | the version type is a scheme name or empty (with an empty version), and the port-version fits an int |
| Manifests.ReadFromRelevant | src/manifest.cpp:24-33 | members with other keys leave every field unchanged |
| Manifests.ReadFromStopsAtFailure | src/manifest.cpp:29-32 | once a member throws, later members do not matter |
| Manifests.Manifest.constructor | src/manifest.h:13-15 | a default Manifest has empty type and version, and port-version 0 |
| Manifests.Manifest.ReadItems | src/manifest.cpp:24-33 | the loop over the members succeeds exactly when `ReadFrom` does, fails with its error, and otherwise leaves its values in the fields |
| Manifests.Open | src/manifest.cpp:12-34 | constructing a Manifest succeeds exactly when `ReadVersion` does and holds its values |
| Manifests.SchemeKeyOrder | src/manifest.cpp:16-21 | a parsed object lists the scheme keys in the order version, version-date, version-semver, version-string |
| Manifests.KeyLessIrreflexive | src/manifest.cpp:24 | no key orders before itself, so the keys of a parsed object are distinct |
| Manifests.GreatestSchemeWins | src/manifest.cpp:24-30 | for members in a parsed object's ascending key order, the scheme read is a scheme key present, and every other scheme key present orders before it |
| Manifests.NoSchemeAfterVersionString | src/manifest.cpp:16-21 | no scheme name orders after version-string |
| Manifests.VersionStringWins | src/manifest.cpp:24-30 | a parsed manifest that holds a version-string member is read as a version-string manifest, whatever other schemes it holds |
| Updating.FirstMarked | src/updater.cpp:134-135 | `find_if` returns a line holding the marker |
| Updating.FirstMarkedIsFirst | src/updater.cpp:134-136 | no earlier line holds the marker; when none is found, no line does |
| Updating.Substr | src/updater.cpp:139 | `substr(pos, 128)` has 128 characters when enough follow, and otherwise the rest of the line; its k-th character is the line's character at `pos + k` |
| Updating.TestInstall | src/updater.cpp:127-140 | the hash read has at most 128 characters |
| Updating.TestInstallEmpty | src/updater.cpp:133-139 | the hash is empty exactly when no line holds the marker, or the first that does ends right after its first marker; the exit code is not looked at |
| Updating.FirstMarkedAt | src/updater.cpp:134-138 | a line with no marked line before it, whose first marker is at `p`, is the line `find_if` stops at, and `find` reports `p` in it |
| Updating.TestInstallReadsHash | src/updater.cpp:134-139 | the hash is the 128 characters after the first marker in the first line that holds one, or all of them when fewer than 128 follow |
| Updating.UpdateBaseline | src/updater.cpp:68-71 | on success the document is an object whose `default` object maps the port to the new baseline entry; failures and what stays untouched are stated by UpdateBaselineFails and UpdateBaselineSets |
| Updating.BaselineEntryContents | src/updater.cpp:68-71 | the baseline entry holds exactly `baseline` (the version) and `port-version` |
| Updating.BaselineEntry | src/updater.cpp:68-71 | the baseline entry built from an initializer list; its contents are stated by BaselineEntryContents |
| Updating.UpdateBaselineFails | src/updater.cpp:68 | the update throws type_error 305 exactly when the document, or its `default` member, is neither null nor an object |
| Updating.UpdateBaselineSets | src/updater.cpp:68-71 | the port's baseline entry becomes the new one; other ports and other members are untouched |
| Updating.UpdateBaselineIdempotent | src/updater.cpp:68-71 | updating the baseline twice with the same values equals updating it once |
| Updating.VersionEntryContents | src/updater.cpp:89-93 | the history entry holds exactly the version under its scheme's name, the port-version and the git tree |
| Updating.VersionEntry | src/updater.cpp:89-93 | the history entry built from an initializer list; its contents are stated by VersionEntryContents |
| Updating.PrependVersion | src/updater.cpp:88-93 | the prepend succeeds exactly on a document with a history array, and leaves a history whose front is an object |
| Updating.PrependVersionSpec | src/updater.cpp:88-93 | the new entry is prepended unconditionally: the history grows by one and the old entries follow unchanged; a document that is neither null nor an object throws 305 on the lookup; a null document, or a history that is not an array, throws 309 on the insert; nothing else changes |
| Updating.SetFrontGitTree | src/updater.cpp:157 | on a history whose front is an object, setting the git tree succeeds and keeps that shape |
| Updating.SetFrontGitTreeSpec | src/updater.cpp:157 | only `versions[0]["git-tree"]` changes; the length and every later entry are kept |
| Updating.SetFrontGitTreeTwice | src/updater.cpp:157 | setting the git tree twice keeps only the second |
| Updating.PrependThenSetTree | src/updater.cpp:88-157 | rewriting the front git tree after the prepend gives the entry the prepend would have written with the new tree |
| Updating.VersionFilePath | src/updater.cpp:85-86 | the path is `versions/`, the name's first letter, `-/`, the name and `.json` |
| Updating.VersionFilePathInjective | src/updater.cpp:85-86 | the path `versions/<initial>-/<name>.json` (defined for non-empty names) differs for different ports |
| Updating.CloneUrl | src/updater.cpp:32 | the URL is `https://github.com/`, the REPO value and `.git` |
| Updating.CloneUrlInjective | src/updater.cpp:32 | the URL `https://github.com/<repo>.git` differs for different repositories |
| Updating.Hashes | src/updater.cpp:181 | one hash per round, in order |
| Updating.HashesAt | src/updater.cpp:181 | the hash of round i is what `test_install` reads from that round's vcpkg output, so it has at most 128 characters |
| Updating.LoopFromDone | src/updater.cpp:179-184 | the loop stops after n fixes exactly when the n-th hash is the first empty one and every hash before it fits the SHA512 width |
| Updating.LoopOutcome | src/updater.cpp:179-184 | the reference definition of the retry loop over the hashes read; its meaning is stated by LoopFromDone, LoopFromStopped, LoopFromExhausted and FixCountOutcome |
| Updating.LoopFrom | src/updater.cpp:179-184 | the retry loop from a given round on; its meaning is stated by LoopFromDone, LoopFromStopped and LoopFromExhausted |
| Updating.FixCount | src/updater.cpp:181-183 | the number of rounds whose hash update_sha512 writes: every hash before it fits the SHA512 width, and the hash at it (if any) does not |
| Updating.FixCountOutcome | src/updater.cpp:179-184 | Done(n) writes n rounds, Exhausted writes them all, and Stopped stops at the size mismatch of the round after the last written |
| Updating.FixedAfterStep | src/updater.cpp:183 | writing the next round's hash and tree over the state after k rounds gives the state after k + 1: the later hash and tree replace the earlier |
| Updating.LoopFromStopped | src/updater.cpp:179-184 | the run dies on a size mismatch exactly when a non-empty hash of the wrong width comes before any empty one |
| Updating.LoopFromExhausted | src/updater.cpp:179-184 | the given rounds run out exactly when every hash fits |
| Updating.LoopDoneOnOutput | src/updater.cpp:179-184 | in terms of vcpkg's output, the loop ends after n fixes exactly when round n reports no hash (no marked line, or its first marked line ends at the marker) and every earlier round's hash (its `test_install` reading, by HashesAt) is as long as the SHA512 argument |
| Updating.WideShaNeverFixed | src/updater.cpp:179-184 | with a SHA512 argument longer than 128 characters the first round ends the loop, with no hash or on a size mismatch |
| Updating.Updater.constructor | src/updater.cpp:172-176 | the updater holds the loaded portfile, the manifest values and the two documents |
| Updating.Updater.UpdateVersions | src/updater.cpp:48-98 | fails on a REF width mismatch, then on a baseline type error, then on a history error; on every exit states the state left behind: the REF is written unless its width is wrong (it is saved before the baseline is read), the baseline entry is written unless the width or the baseline fails, and the history is prepended only on success |
| Updating.Updater.UpdateSha512 | src/updater.cpp:142-162 | fails on a SHA512 width mismatch or a history type error; on every exit the SHA512 is written unless its width is wrong (it is saved before the history is read), and the front git tree is written only on success |
| Updating.Updater.FixHashes | src/updater.cpp:179-184 | the loop, reading each round's hash with `test_install`, ends as `LoopOutcome` of those hashes says; on every exit (Done, Stopped or Exhausted) the buffer and the history are those after the `FixCount` rounds written (`FixedAfter`): unchanged after none, otherwise holding the last written hash and its round's tree; Done(n) has written n rounds |
| Updating.Updater.Run | src/updater.cpp:172-187 | the run stops on the first error of update_versions, leaving the REF and baseline that update_versions saved and the history unchanged; otherwise it ends as the retry loop does, and on every exit of the loop the baseline is updated, the history holds the version with the tree of the last round written, and the buffer holds the new REF and, after `FixCount` > 0 rounds, the last hash written |

## Left out

- Reading and writing files, the working directory, `canonical`, `exists` and
  `create_directories` are left out: they are I/O. `Portfile::save` returns
  the text it would write, and `Manifest` takes the parsed object's members
  as a list.
- Running git and vcpkg (src/command.cpp) is left out. Their outputs are
  parameters: `head`, `tree` and the `Round` sequence.
- A command that prints no line is not modelled. `output[0]` on empty output
  (src/updater.cpp:59, 84, 155) is undefined behaviour in the source, and
  the model takes the line as a string.
- Not modelled because they are I/O or process steps: the manifest copy
  (`Manifest::copy_to`), `setup_test`, the commits, `clone_or_pull_remote_repo`
  (only its URL is modelled) and `push_remote`.
- Manifests.Open: takes the members as a list and does not require them to
  be in a parsed object's order. The order facts (`GreatestSchemeWins`,
  `VersionStringWins`) hold for lists that satisfy `KeysAscending`: keys
  strictly ascending in std::string order, as a std::map-backed object
  lists them.
- Command-line parsing (src/config.cpp) and console output are not modelled.
- JSON text parsing and `dump(4)` are not modelled; documents are values.
  Floating-point JSON numbers are not modelled.
- Updating.Updater.FixHashes: `rounds` is a finite list of the outputs of
  vcpkg install and git rev-parse, one pair per round. The source loops for
  as long as vcpkg keeps reporting hashes, and the model instead ends with
  `Exhausted` when the given rounds run out.
- Updating.TestInstall: its own contract states only that the hash has at
  most 128 characters. What the hash is, is stated by `TestInstallEmpty`
  and `TestInstallReadsHash`.
- Portfiles.Text: reads a range that reaches past the end of the text as
  empty. No token does that, so it never affects a scan.
- Portfiles.Locate: its own contract states only that the region is well
  formed. Its full contract is `LocateSpec`, kept apart so that proofs that
  do not need it stay small.
- The checks on `key_end` and `value_end` (src/portfile.cpp:46, 50) are not
  modelled: they can never fire, because the closing `)` is itself a
  separator (`SeparatorBy`). Only the check on `value_begin` (line 48) can
  fail.
- The `Manifest` accessors (src/manifest.h:20-22) are not separate members:
  they read the class's fields directly. The constructor's loop is the
  method `ReadItems`, which `Open` calls once on a fresh `Manifest`; the
  source has no way to run that loop again on a constructed manifest, and
  the model does not forbid it.
- `std::string_view` and `std::span` are modelled as (start, length) ranges
  into the buffer. Aliasing through raw pointers is not modelled.
