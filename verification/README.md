# tbd-auto-versioning, modelled in Dafny

The action `index.mjs` keeps version tags in step with trunk-based development.
On every run it:

1. lists the repository's branches and tags;
2. for every `release/M.N.x` branch, tags each new `fix` commit with the next patch version `vM.N.P`;
3. on trunk, tags each new `feat` commit with the next minor version `vM.N.0` and opens its `release/M.N.x` branch;
4. on trunk, turns each breaking change into a new major: tags `vM`, `vM.0` and `vM.0.0`, and opens `release/M.0.x`;
5. moves the alias tags `vM`, `vM.N` and `latest` to the last commit that claimed them.

This project models that decision procedure. The repository comes in as a value: branch names with their commit histories as `listCommits` pages, and the tag list. The run's effect is the ordered list of ref mutations it asks for:

- `CreateTag`;
- `CreateBranch`;
- `UpdateOrCreateTag`.

The run may also stop with a failure.

Modules, one file each:

- `Text`: digits, number printing, `toLowerCase`, `startsWith`, and JavaScript's `<` on strings (`LexLess`).
- `VersionTags`: `RELEASE_BRANCH_REGEXP`, `VERSION_TAG_REGEXP` with `parseVersionTag`, and the minor-zero filter. Each is a greedy scan with JavaScript's backtracking, proved equal to a plain description of the names it accepts.
- `Classifier`: the `fix` and `feat` prefix tests, and the short and long breaking-change markers.
- `HistoryWalker`: `getBranchCommitsAfterTag` as a method with the source's paging loop. It is proved equal to a function over the flattened listing.
- `Aliases`: the `shortTagToCommit` map with JavaScript `Map` semantics (insertion-ordered keys, last writer wins) and its flush.
- `ReleaseEngine`: the release-branch loop as a method, specified by a fold over the commits.
- `TrunkEngine`: the trunk loop as a method, specified by a fold over the commits.
- `Action`: the two early exits, the loop over release branches, the trunk lookup and the flush, as the method `Run`. It is specified by `RunSpec`.
- `Scenarios`: worked examples, including the places where string handling gives surprising answers.

Where the code behaves in ways a reader may not expect, the model follows the code:

- The guards on `vM` and `latest` compare tag names as strings, not as version numbers. `Scenarios.StringOrderExample` shows `v1.9.10` losing to `v1.9.9`.
- A release branch's boundary tag is the first listed version tag whose name starts with `v<M.N>`. It is not the highest such tag. Because this is a plain prefix test, `release/1.1.x` also takes `v1.10.0`.
- Trunk's boundary is the first listed tag that passes the minor-zero filter.
- Messages are not trimmed. `fix` and `feat` are tested on the whole lower-cased message.
- The third separator of the version pattern is an unescaped `.`. It matches any single UTF-16 code unit except a line terminator (`VersionTags.MatchesDot`). A character beyond U+FFFF takes two code units, so a name with such a separator is not a version tag (`Scenarios.AstralSeparatorExample`).
- Digit runs may carry leading zeros.

## Model

| member | source | states |
|---|---|---|
| Text.NatToString | index.mjs:132 | printing a number gives canonical decimal digits that denote it |
| Text.NatToStringOfValue | index.mjs:127-132 | a canonical digit string read as a number and printed again is unchanged |
| Text.DigitsValue | index.mjs:132 | the number JavaScript reads from a captured digit string on `++`; `Text.NatToStringOfValue` and `VersionTags.ParseNumbersRoundTrip` state that printing it gives back canonical digits |
| Text.ToLower | index.mjs:131 | `.toLowerCase()`, folding ASCII letters only; the gap is the `Text.ToLower` line under "Left out" |
| Text.StartsWith | index.mjs:125 | `String.prototype.startsWith`: the prefix is no longer than the string and equals its first characters |
| Text.LexLess | index.mjs:135 | JavaScript's `>` between tag names: the first differing character decides, and a proper prefix comes first |
| Text.LexLessIrreflexive | index.mjs:135 | no name compares greater than itself |
| Text.LexLessTransitive | index.mjs:135 | string comparison is transitive |
| Text.LexLessTotal | index.mjs:140 | any two different names are ordered one way or the other |
| Text.LexLessCommonPrefix | index.mjs:135 | a shared prefix such as `v1.` does not change the comparison |
| VersionTags.VersionNamePrefixes | index.mjs:125 | `v<M>.<N>.<P>` starts with `v<M>.<N>` and with `v<M>` |
| VersionTags.MatchVersionTag | index.mjs:9 | `VERSION_TAG_REGEXP.exec` as a greedy scan with backtracking; its meaning is stated by the Sound and Complete lemmas |
| VersionTags.ParseVersionTag | index.mjs:13-15 | `parseVersionTag` returns three digit strings |
| VersionTags.MatchVersionTagSound | index.mjs:9 | every accepted name is `v` + digits + `.` + digits + one character `.` matches (a single UTF-16 code unit, not a line terminator: `MatchesDot`) + digits, with those captures |
| VersionTags.MatchVersionTagComplete | index.mjs:9 | every such name is accepted with the same major; the greedy minor is at least as long; the split is exact when the separator is not a digit |
| VersionTags.VersionNameParses | index.mjs:13-15 | a name the action writes is a version tag that parses back to its three parts with separator `.` |
| VersionTags.ParseFormatRoundTrip | index.mjs:13-15 | `parseVersionTag` yields three digit strings; with separator `.` they print back to the name |
| VersionTags.ParseNumbersRoundTrip | index.mjs:13-15 | with separator `.` and no leading zeros, printing the three numbers reproduces the name |
| VersionTags.VersionTagStartsWithMajor | index.mjs:135 | a version tag starts with `v<major>`, so the same-major filter is never empty |
| VersionTags.MatchReleaseBranch | index.mjs:8 | `RELEASE_BRANCH_REGEXP.exec(name).groups.version`, or none; its meaning is stated by the Sound and Complete lemmas |
| VersionTags.MatchReleaseBranchSound | index.mjs:8 | every accepted branch is `release/<digits>.<digits>.x` and its group is `<digits>.<digits>` |
| VersionTags.MatchReleaseBranchComplete | index.mjs:8 | every `release/<digits>.<digits>.x` is accepted with that group |
| VersionTags.IsMinorZeroTag | index.mjs:152 | `/^v\d+\.\d+\.0$/.test(name)`; its meaning is stated by `MinorZeroTagExact` |
| VersionTags.MinorZeroTagOfName | index.mjs:152 | every `v<digits>.<digits>.0` passes the minor-zero filter |
| VersionTags.MinorZeroTagExact | index.mjs:152 | the minor-zero filter accepts exactly the version tags with separator `.` and patch `0` |
| Classifier.IsFix | index.mjs:131 | the lower-cased message starts with `fix` |
| Classifier.IsFeature | index.mjs:159 | the lower-cased message starts with `feat` |
| Classifier.IsShortBreaking | index.mjs:10 | `SHORT_BREAKING_CHANGE_REGEXP.test(message)`; its meaning is stated by the Sound and Complete lemmas |
| Classifier.IsLongBreaking | index.mjs:167-168 | `LONG_BERAKING_CHANGE_REGEXP` on the message's last line; its meaning is stated by `LongBreakingExact` |
| Classifier.ClassifyTrunk | index.mjs:159-168 | the `feat` test comes before the breaking markers |
| Classifier.ShortBreakingSound | index.mjs:10 | a message with the short marker begins with `type!` or `type(scope)!` |
| Classifier.ShortBreakingComplete | index.mjs:10 | every message beginning with `type!` or `type(scope)!` has the short marker |
| Classifier.LastLine | index.mjs:168 | the result is the newline-free suffix after the last line feed |
| Classifier.LastLineAfterNewline | index.mjs:168 | the last line of `body + "\n" + footer` is the footer |
| Classifier.LongBreakingExact | index.mjs:168 | the long marker is found exactly when the last line is `breaking`, a space or hyphen, `change`, then anything, in any ASCII case |
| Classifier.BreakingChangeFooter | index.mjs:11 | a line starting with `BREAKING CHANGE` passes the long-marker test |
| Classifier.FooterMarksBreaking | index.mjs:167-168 | a non-feature whose last line is a `BREAKING CHANGE` footer is breaking, whatever its subject |
| HistoryWalker.FlattenAppend | index.mjs:39 | concatenating pages one after another is concatenating their listings |
| HistoryWalker.Reverse | index.mjs:42 | reversal keeps the length and mirrors the positions |
| HistoryWalker.FirstIndexOf | index.mjs:30-36 | the index found holds the sha and no earlier commit does; none means no commit does |
| HistoryWalker.CommitsAfter | index.mjs:19-44 | none iff no listed commit has the sha; otherwise the result's length is the sha's first index in the listing, the result is the earlier commits in reverse order, and it never contains the tagged commit |
| HistoryWalker.GetBranchCommitsAfterTag | index.mjs:19-44 | the paging loop returns `CommitsAfter` |
| HistoryWalker.FoundOnPage | index.mjs:38-42 | finding the sha on page p at position k yields the earlier pages plus that page's prefix, reversed |
| Refs.Filter | index.mjs:105 | `filter` keeps only list elements that satisfy the test, keeps every one that does, and its first element is the first one that does |
| Refs.FilterAppend | index.mjs:105 | filtering a concatenation is filtering each part, in order, so the kept elements keep their input order |
| Refs.FilterSingle | index.mjs:105 | one element is kept exactly when it passes the test |
| Refs.FilterEmpty | index.mjs:105-118 | a filter is empty exactly when no element satisfies it |
| Aliases.AliasNamesDiffer | index.mjs:136-141 | `v<M>`, `v<M>.<N>` and `latest` are three different keys |
| Aliases.Set | index.mjs:136 | `Map.set` keeps every key listed once and the key list equal to the mapping's domain |
| Aliases.ApplyAll | index.mjs:120 | any sequence of sets keeps that invariant |
| Aliases.LastWriterWins | index.mjs:136-166 | after the writes, a written key maps to its last write's commit and an unwritten key keeps its value |
| Aliases.ApplyAllFirstWriteOrder | index.mjs:120-182 | starting from the empty map, the keys iterate in the order of their first write, each once |
| Aliases.ApplyAllKeepsOrder | index.mjs:182 | keys already present keep their iteration positions; new keys come after them |
| Aliases.LastWriteAppend | index.mjs:164-178 | a later batch of writes overrides an earlier one key by key |
| Aliases.ApplyAllAppend | index.mjs:123-180 | applying the release writes and then the trunk writes equals applying both together |
| Aliases.FlushIntents | index.mjs:182 | one update per key, in iteration order, at that key's commit, with no key twice |
| Aliases.FlushIsLastWriter | index.mjs:182 | flushing a map built from writes moves each written alias exactly once, to its last write |
| Aliases.Flush | index.mjs:182 | the `forEach` loop issues `FlushIntents` |
| ReleaseEngine.FixFold | index.mjs:130-142 | the release loop over one branch's commits as a fold; its properties are the `FixFold*` lemmas |
| ReleaseEngine.FixWrites | index.mjs:135-141 | all writes are at the fix; `v<M>` is written only and always when the tag beats the major floor, `latest` likewise with the latest floor |
| ReleaseEngine.FixStep | index.mjs:131 | a commit that is not a fix changes nothing |
| ReleaseEngine.PatchTagParses | index.mjs:132 | each patch tag is a version tag with the line's major, minor and the patch in decimal, and starts with `v<M>.<N>` |
| ReleaseEngine.FixFoldNumbering | index.mjs:127-133 | the k-th fix gets tag `v<M>.<N>.<patch0+k+1>`; no other commit creates a tag |
| ReleaseEngine.FixFoldWriteKeys | index.mjs:135-141 | every write is to `v<M>`, `v<M>.<N>` or `latest`, at a fix commit |
| ReleaseEngine.FixWritesLast | index.mjs:135-141 | within one fix's writes, that fix is last for `v<M>.<N>`; for `v<M>` and `latest` it is last exactly when the guard passes |
| ReleaseEngine.FixFoldSnoc | index.mjs:130 | one more commit is one more step of the loop |
| ReleaseEngine.FixStepAliases | index.mjs:131-141 | a fix takes the next patch tag and becomes the last writer of `v<M>.<N>`, and of `v<M>` or `latest` only when the guard passes |
| ReleaseEngine.FixFoldMinorAlias | index.mjs:138 | after the loop, `v<M>.<N>` was last written with the last fix |
| ReleaseEngine.FixFoldGuardSound | index.mjs:135-141 | each write to `v<M>` or `latest` is by a fix whose tag beats the floor as a string |
| ReleaseEngine.FixFoldGuardComplete | index.mjs:135-141 | each fix whose tag beats the floor as a string writes that alias |
| ReleaseEngine.ReleaseCommits | index.mjs:127-142 | the loop issues the fold's tags, and its map equals the fold's writes applied to the incoming map |
| TrunkEngine.TrunkFold | index.mjs:158-180 | the trunk loop as a fold; the major stays a digit string, canonical only after a breaking change (`NextMajor`), and its properties are the `TrunkFold*` lemmas |
| TrunkEngine.NextMajor | index.mjs:171 | `++major` gives canonical digits worth one more |
| TrunkEngine.TrunkStep | index.mjs:158-179 | a commit that is neither a feature nor breaking changes nothing |
| TrunkEngine.FeatureIntents | index.mjs:160-162 | a feature's `createTag` of `v<M>.<N>.0` then `createBranch` of `release/<M>.<N>.x`, at the commit; `FeatureIntentsPaired` and `ReleasePair` state their agreement |
| TrunkEngine.BreakingIntents | index.mjs:170-176 | the `forEach` creating `v<M>`, `v<M>.0`, `v<M>.0.0`, then `createBranch` of `release/<M>.0.x`, at the commit; `BreakingIntentsPaired` states the pairing |
| TrunkEngine.FeatureStep | index.mjs:159-166 | a feature adds 1 to minor and keeps major; it creates a `.0` tag that parses back, then its release branch, at the commit; `v<M>`, `v<M>.<N>` and `latest` end at it and other aliases are unchanged |
| TrunkEngine.BreakingStep | index.mjs:167-178 | a breaking change raises major by 1 and resets minor to 0; it creates `v<M>`, `v<M>.0`, `v<M>.0.0` and `release/<M>.0.x` at the commit; only `latest` moves |
| TrunkEngine.TrunkFoldAppend | index.mjs:158 | the cursor carries over: two runs of commits equal one run over both |
| TrunkEngine.TrunkFoldVersion | index.mjs:154-171 | major rises by the number of breaking changes; with none, minor rises by the number of features |
| TrunkEngine.BreakingResetsMinor | index.mjs:169-171 | after the last breaking change, minor counts only the features that follow it |
| TrunkEngine.TrunkFoldAdvances | index.mjs:158-180 | any feature or breaking change raises the (major, minor) pair numerically; otherwise nothing changes |
| TrunkEngine.ReleasePair | index.mjs:160-162 | the `.0` tag and release branch a step creates pass their filters and agree on `<M>.<N>` |
| TrunkEngine.BranchesPairedAppend | index.mjs:158-180 | pairing of branches with their `.0` tags survives appending a block |
| TrunkEngine.FeatureIntentsPaired | index.mjs:160-162 | a feature's branch comes right after its `.0` tag |
| TrunkEngine.BreakingIntentsPaired | index.mjs:173-176 | a breaking change's branch comes right after its `.0.0` tag |
| TrunkEngine.TrunkFoldBranchesPaired | index.mjs:158-180 | every created release branch comes right after the `.0` tag its group names, at the same commit |
| TrunkEngine.TrunkFoldCreatesOnly | index.mjs:158-180 | the trunk loop only creates refs |
| TrunkEngine.TrunkFoldLatest | index.mjs:166-178 | `latest` is last written with the last feature or breaking commit, if any |
| TrunkEngine.TrunkCommits | index.mjs:154-180 | the loop issues the fold's refs, and its map equals the fold's writes applied to the incoming map |
| Action.ReleaseBranches | index.mjs:105 | every kept branch is named `release/M.N.x` and every listed such branch is kept |
| Action.VersionTagsOf | index.mjs:113 | every kept tag is a version tag and every listed version tag is kept |
| Action.MinorZeroTags | index.mjs:152 | every kept tag passes the minor-zero filter and comes from the version tags, and every such version tag is kept |
| Action.TagsStartingWith | index.mjs:125 | the `startsWith` filter over tags at lines 125 and 135; `Action.FirstStartingWith` states that its first element is the first listed match |
| Action.FindBoundary | index.mjs:125-140 | none iff no version tag starts with `v<M.N>`; otherwise the boundary is the first such tag, the line's major and minor are its captures and the patch is the value of its third capture, the major floor is the first listed tag starting with `v<major>`, and the latest floor is the first version tag |
| Action.BranchStep | index.mjs:124-142 | it stops with `NoBranchTag` exactly when no version tag starts with `v<M.N>`; a failing branch adds no refs; on success it appends the fold's tags and alias writes for the commits after the boundary |
| Action.ReleasePhase | index.mjs:123-143 | the loop can only stop for a missing branch tag or a tag commit that is not listed |
| Action.ReleasePhaseStops | index.mjs:123-129 | after the first failing branch, later branches change nothing |
| Action.FindTrunkJob | index.mjs:152-156 | fails iff there is no minor-zero tag or its commit is not listed; otherwise the cursor is the first minor-zero tag's major text and minor number, and the commits are the walk after that tag's commit |
| Action.FirstStartingWith | index.mjs:125 | the first tag a prefix filter keeps is the first listed tag with that prefix |
| Action.TrunkPhase | index.mjs:152-180 | the trunk step fails only for a missing minor-zero tag or an unlisted commit |
| Action.Phases | index.mjs:105-118 | it stops with "no release branches" iff none is named `release/M.N.x`, and with "no version tags" iff there is one but no version tag |
| Action.TagReleaseBranches | index.mjs:120-143 | the loop over branches returns `ReleasePhase`'s refs and failure; on success its map equals `ReleasePhase`'s writes applied to the empty map |
| Action.RunSpec | index.mjs:103-182 | the run as a function: the refs created before any stop, then, when nothing stopped it, the flush of the alias map; its properties are the `Run*` and `Phases*` lemmas |
| Action.Run | index.mjs:103-182 | the program's top level produces `RunSpec(repo)` |
| Action.RunStopsEarly | index.mjs:105-118 | the two early exits happen exactly when no branch, or no tag, matches, and issue nothing |
| Action.ReleasePhaseCreatesOnly | index.mjs:123-143 | the release loop only creates tags |
| Action.PhasesCreateOnly | index.mjs:105-180 | before the flush, a run only creates refs |
| Action.FlushAfter | index.mjs:182 | after the creations, each written alias is updated once, to its last write |
| Action.FlushHasAlias | index.mjs:182 | an alias with a last write is updated to that commit |
| Action.RunFlushesLast | index.mjs:120-182 | a run that finishes asks for every creation first, then one update per written alias, to its last write, with no alias updated twice (that release writes precede trunk writes is `Action.PhasesComplete`) |
| Action.PhasesComplete | index.mjs:152-180 | a finished run found trunk's boundary, and its writes are the release writes followed by the trunk writes |
| Action.RunLatestFollowsTrunk | index.mjs:166-182 | when trunk has a feature or breaking change, `latest` is updated to the last of them, whatever the release branches wrote |
| Scenarios.FirstFixExample | index.mjs:127-133 | on `release/1.0.x` after `v1.0.2`, a fix then a non-fix give one tag, `v1.0.3` |
| Scenarios.ReleaseBranchExample | index.mjs:123-142 | fix a, non-fix b, fix c give `v1.0.3` at a and `v1.0.4` at c; `v1.0`, `v1` and `latest` end at c |
| Scenarios.StringOrderExample | index.mjs:135-141 | after `v1.9.9`, the fix tagged `v1.9.10` moves only `v1.9`, because `v1.9.10` compares below `v1.9.9` |
| Scenarios.FeatureExample | index.mjs:159-166 | `feat: add thing` after `v2.1.0` creates `v2.2.0` and `release/2.2.x`, and moves `v2`, `v2.2` and `latest` |
| Scenarios.ShortMarkerExample | index.mjs:167 | `api!: remove old method` is breaking |
| Scenarios.ShortBreakingExample | index.mjs:167-178 | a breaking change at major 2 creates `v3`, `v3.0`, `v3.0.0` and `release/3.0.x`, and moves only `latest` |
| Scenarios.LooseSeparatorExample | index.mjs:9 | `v1.2-3` is a version tag with parts 1, 2 and 3 |
| Scenarios.DigitSeparatorExample | index.mjs:9 | `v1.234` is a version tag with parts 1, 2 and 4 |
| Scenarios.AstralSeparatorExample | index.mjs:9 | a separator beyond U+FFFF makes the name fail the version pattern |

## Left out

- The host API calls and authentication (`listBranches`, `listTags`, `listCommits`, `getBranch`, `createTag`, `createRef`, `updateRef`). The repository is an input value and the mutations are output intents.
- Pagination of `listBranches` and `listTags`: the source reads only the first page. The model takes whatever lists it is given.
- A failing `getBranch` for the trunk name, and `core.getInput`: the trunk branch is part of the input.
- The create-then-update-else-create protocol of `updateOrCreateTag`: it is one `UpdateOrCreateTag` intent per alias.
- `createTag` and `createBranch` are not awaited, so the host may see them in another order. The model keeps the order of the calls.
- `core.notice` and `core.error`, which are logging.
- `process.exit(1)`. The two early exits become the failures `NoReleaseBranches` and `NoVersionTags`.
- A crash: a missing boundary tag or minor-zero tag makes the source throw. The model stops with `NoBranchTag` or `NoMinorZeroTag`, keeps the intents already issued, and does no flush.
- HistoryWalker.GetBranchCommitsAfterTag: when no listed commit has the tag's sha, the source requests empty pages forever. The model returns None, and the run stops with `TagCommitNotListed`.
- Text.ToLower: only ASCII letters are folded. The model's results depend on lower-casing only through the ASCII prefixes `fix`, `feat`, `breaking` and `change`. Characters that lower-case to ASCII, such as `İ` and the Kelvin sign, are not modelled.
- Text.LexLess: compares code points, while JavaScript compares UTF-16 code units. The two disagree only when comparing characters above U+FFFF with characters from U+E000 to U+FFFF.
- Numbers: JavaScript turns captured digit strings into doubles, which lose precision above 2^53. The model uses unbounded naturals.
- Counting how many requests the walk makes: the model returns the same commits and does not count page requests.
