# deno-udd, modelled in Dafny

udd ("update deno dependencies") rewrites the import urls of a Deno source
file so that they point at newer releases. It recognises an import url by
the registry it belongs to, such as deno.land/std, deno.land/x, unpkg,
denopkg, jspm, pika, or raw GitHub and GitLab files. It reads the version
embedded in the url and lists the registry's releases, newest first. Then it
chooses a target version. It takes the newest, or the first that satisfies
an npm-style range or a `#` fragment such as `#^`, `#~` or `#<0.3.0`. It then
substitutes the new url for the old one throughout the file and runs the
user's tests. If the tests fail, it substitutes back.

The project models the core of the repository:

- `Semver.dfy` covers `semver.ts`:
  - the strict semver grammar (with an optional leading `v`) as a recogniser, proved sound and complete against a rendering of capture groups;
  - the `Semver` constructor and its refusal;
  - `lt`, `eq`, `caret`, `tilde`, the token dispatch `_`;
  - `fragment`, which turns a url's `#` fragment into a constraint.
- `Registry.dfy` covers `registry.ts`:
  - `lookup` over the registry patterns, each pattern tried unanchored, at every position;
  - `defaultAt`, `defaultVersion` and `defaultName`, with their lazy and greedy regular expressions written out;
  - the raw GitHub and GitLab adapters (`/`-segment 5 and 7);
  - what each registry's `all()` fetches;
  - the release cache, and `fetchReleases` as a loop over pages;
  - the std tag filter and the in-place reversal of the unpkg option list.
- `Versioned.dfy` covers `versioned.ts`:
  - `versioned` over `IMPLS`;
  - its `defaultAt` and `defaultCurrent` (the first `@` followed later by a `/`);
  - the keyed `githubReleases` cache.
- `Mod.dfy` covers `mod.ts`:
  - the class `Udd` holds the file text as `content`;
  - `run`, `update`, `maybeReplace` and `replace` are methods on it;
  - each is proved against the functions `RunSpec` and `Step`, which state what one call and a whole run do.
- `Updater.dfy` covers `update.ts`:
  - the class `Update`, proved against `OneSpec` and `UpdateSpec` in the same way.
- The shared modules are:
  - `Text.dfy`: JavaScript's `split`, `join`, `trim` and `replaceAll`;
  - `Lists.dfy`: `find`, in-place `reverse` and page concatenation;
  - `Cache.dfy`: the `Map<string, string[]>` cache as a class;
  - `Wrappers.dfy`: `Option` and `Result`.

The central property is the substitute-and-revert transaction in
`maybeReplace` and `updateIfTestPasses`. The file is replaced with
`content.split(old).join(new)`, and a failing test runs the same replacement
backwards. `Text.SubstituteCommitsOrRestores` proves a condition under which this is
safe. The backward replacement restores the file whenever the new url is not
empty, does not already occur in the file, and has no proper prefix that is
also its suffix. `Text.RevertNeedsAbsence` and
`Text.RevertNeedsUnbordered` give concrete texts where each of these
conditions is missing and the revert does not restore the file.

Thrown errors are `Failure` values carrying the message the source throws.
Undefined fields are `None`.

## Model

| member | source | states |
|---|---|---|
| Text.Split | mod.ts:155 | `split` with a non-empty separator yields at least one part; an empty separator yields one part per character |
| Text.Trim | semver.ts:111 | the result is the slice of the input between its leading and its trailing white space, and neither starts nor ends with white space |
| Text.TrimStart | semver.ts:108 | the `\s*` skip: a suffix of the input, all of whose removed prefix is white space, starting with a non-space |
| Text.JoinSplit | mod.ts:155 | joining the parts of a split with the same separator gives the text back |
| Text.ReplaceAllSelf | mod.ts:155 | replacing a string by itself leaves the file unchanged |
| Text.SplitJoin | mod.ts:155 | parts joined by a separator that first occurs only at the joints split back into the same parts |
| Text.RevertRestores | mod.ts:143-149 | replacing `a` by `b` and then `b` by `a` restores the text when `b` is non-empty, absent from it and unbordered |
| Text.RevertNeedsAbsence | mod.ts:143-149 | if the new url already occurs in the file, the revert does not restore it (`"ab"` becomes `"aa"`) |
| Text.RevertNeedsUnbordered | mod.ts:143-149 | if the new url overlaps itself, the revert does not restore the file (`"yx"` becomes `"xy"`) |
| Text.SubstituteCommitsOrRestores | mod.ts:143-150 | the test-guarded replacement reports failure exactly when the test rejects the updated text; on failure the file is as before, otherwise fully updated |
| Lists.FindIndex | mod.ts:87-89 | `findIndex`: none exactly when no element satisfies the predicate, else the first index that does |
| Lists.Find | mod.ts:109-111 | `find`: none exactly when no element satisfies the predicate, else the first element that does |
| Lists.ReversedTwice | registry.ts:197 | reversing twice gives back the original order |
| Lists.ReverseInPlace | registry.ts:197 | the in-place reverse leaves the array holding the reversal of its old contents |
| Lists.ConcatAppend | registry.ts:88 | appending pages appends their concatenations |
| Cache.ReleaseCache.constructor | registry.ts:65 | a new cache is empty |
| Cache.ReleaseCache.Get | registry.ts:71-73 | returns a value exactly when the key is present, and then the stored list |
| Cache.ReleaseCache.Set | registry.ts:91 | stores the list under the key and changes no other entry |
| Semver.MatchVersionSound | semver.ts:5-6 | every text the recogniser accepts is the rendering of well-formed capture groups |
| Semver.MatchVersionComplete | semver.ts:5-6 | the rendering of any well-formed capture groups is accepted with those groups |
| Semver.NewSemverAcceptsExactly | semver.ts:24-28 | the constructor succeeds exactly on texts of the semver grammar, optional `v` included |
| Semver.NewSemver | semver.ts:24-36 | failure carries "Not valid semver"; success keeps the given text as `version` |
| Semver.NewSemverOfGroups | semver.ts:29-35 | the fields are the capture groups, numbers as their decimal values |
| Semver.SemverOf | semver.ts:8-14 | `semver()` is undefined exactly when the constructor throws, else the constructed value |
| Semver.NewSemverExample | semver_test.ts:4-9 | `1.0.2` parses to major 1, minor 0, patch 2 |
| Semver.NewSemverRefusesExample | semver_test.ts:28-30 | `bad.0.2` is refused |
| Semver.NewSemverRefusesEquals | semver.ts:115 | a version text starting with `=` is never valid |
| Semver.LexIrreflexive | semver.ts:59-60 | string `<` is irreflexive |
| Semver.LexAsymmetric | semver.ts:59-60 | string `<` is asymmetric |
| Semver.LexTransitive | semver.ts:59-60 | string `<` is transitive |
| Semver.LexTrichotomy | semver.ts:59-60 | any two strings are equal or ordered one way |
| Semver.LtByTriple | semver.ts:47-54 | when major, minor or patch differ, `lt` is exactly the numeric order of the triple |
| Semver.LtNeedsPrereleases | semver.ts:56-58 | with equal triples, a missing prerelease on either side makes neither `lt` the other |
| Semver.LtIrreflexive | semver.ts:46-68 | no version is `lt` itself |
| Semver.LtAsymmetric | semver.ts:46-68 | `lt` is asymmetric |
| Semver.LtTransitive | semver.ts:46-68 | `lt` is transitive |
| Semver.LeadingVNotEq | semver.ts:42-44 | `v1.0.0` and `1.0.0` are not `eq`, yet neither is `lt` the other |
| Semver.SameFieldsNotLt | semver.ts:46-68 | versions with equal fields are not ordered by `lt` |
| Semver.Tilde | semver.ts:70-77 | `tilde` implies `caret`; with both majors 0 it is `caret`; otherwise it also needs equal minors |
| Semver.Apply | semver.ts:79-99 | the dispatch succeeds exactly for the seven tokens; any other token fails with "modifier token not recognized: " and the token |
| Semver.ApplyRelations | semver.ts:88-95 | `<=` is `eq` or `lt`; `>` negates `<=`; `>=` negates `<`; `=` is `eq`; `<` and `<=`, `>=` on equal versions |
| Semver.MatchOperator | semver.ts:108 | the operator match fails exactly when no token fits; otherwise the token is a prefix and the rest is its text with leading white space dropped |
| Semver.MatchLoneOperator | semver.ts:108 | a lone `~`, `^`, `<`, `>` or `=` matches with an empty rest |
| Semver.MatchLessEqual | semver.ts:108 | `<=` is matched as `<` followed by `=...`, since `<` comes first in the alternation |
| Semver.FragmentConstraint | semver.ts:111-119 | an unmatched fragment fails with "invalid semver fragment: " and the fragment; otherwise the anchor is the text after the operator, or the current version when that is empty; it is the parsed version, or the failure "invalid semver version: " and that text |
| Semver.Fragment | semver.ts:109-110 | no constraint exactly when the url has no `#`; otherwise the constraint, or the error, of the text after the first `#` |
| Semver.FragmentWithoutHash | semver.ts:109-110 | a url without `#` has no constraint |
| Semver.FragmentDefaultsToCurrent | semver.ts:115-119 | a lone operator constrains against the current version, or fails with "invalid semver version: " and that version |
| Semver.MatchGreaterEqual | semver.ts:108 | `>=` is matched as `>` followed by `=...`, since `>` comes first in the alternation |
| Semver.FragmentGreaterEqualQuirk | semver.ts:111-119 | a `>=` fragment always fails, because `=...` is then parsed as the version |
| Semver.FragmentLessEqualQuirk | semver.ts:111-119 | a `<=` fragment always fails, because `=...` is then parsed as the version |
| Semver.Satisfies | semver.ts:116-117 | the closure is the token's relation with the candidate on the left and the anchor on the right: `<` is `lt`, `>` neither `eq` nor `lt` |
| Registry.TestSomewhere | registry.ts:7 | the unanchored `test` succeeds exactly when the pattern matches at some position |
| Registry.Lookup | registry.ts:2-11 | none exactly when no registry's pattern matches; otherwise the first matching registry, in list order, wrapping the url |
| Registry.LookupFirst | registry.ts:5-9 | the first registry whose pattern matches is the one returned |
| Registry.MatchHasAt | registry.ts:163 | every non-raw pattern that matches needs an `@` in the url |
| Registry.DefaultAt | registry.ts:25-27 | a url without an `@` match is returned unchanged |
| Registry.AtOfLayout | registry.ts:25-27 | the first `@` and the version up to the next `/` are replaced by `@`, the new version and `/` |
| Registry.AtOfLayoutAtEnd | registry.ts:25-27 | a version running to the end of the url is replaced, and a `/` is appended |
| Registry.DefaultVersion | registry.ts:29-35 | fails with "Unable to find version in " and the url exactly when every `@` is followed by `/` or ends the url; a version is non-empty and has no `/` |
| Registry.VersionOfLayout | registry.ts:29-35 | the version is the text between the first `@` and the next `/` |
| Registry.DefaultRoundTrip | registry.ts:25-35 | reading the version of `at(v)` gives `v` |
| Registry.DefaultRoundTripAtEnd | registry.ts:25-35 | reading the version of `at(v)` gives `v` when the version ends the url |
| Registry.AtCurrentVersion | registry.ts:25-35 | `at` of the current version leaves the url unchanged, except that a version at the end gains a `/` |
| Registry.DefaultName | registry.ts:37-43 | fails with "Package name not found in " and the url exactly when there is no `@`; a name holds no `/`, quote or `@` |
| Registry.NameOfLayout | registry.ts:37-43 | the name is the segment text just before the first `@` |
| Registry.MatchedHasName | registry.ts:129-131 | a url any name-based registry recognises has a name |
| Registry.SetSegment | registry.ts:328-329 | assigning past the end pads with empty segments; only segment `n` changes |
| Registry.RawSegment | registry.ts:333-339 | fails with "Unable to find version in " and the url exactly when there are too few segments |
| Registry.RawAtSegments | registry.ts:327-331 | the segments of the raw `at` result are the old ones with segment 5 replaced |
| Registry.At | registry.ts:356-360 | `at` keeps the kind, except that GitLab raw urls become GitHub raw urls; raw urls get their segment 5 rewritten, every other kind gets `defaultAt` |
| Registry.Version | registry.ts:333-339 | a failed version read carries "Unable to find version in " and the url |
| Registry.Name | registry.ts:129-131 | `name()` fails exactly when the url has no `@`, and is otherwise `defaultName`'s text before the first `@` |
| Registry.GithubRawRoundTrip | registry.ts:327-339 | the GitHub raw version of `at(v)` is `v` |
| Registry.GitlabRawNoRoundTrip | registry.ts:356-368 | GitLab raw `at(v)` yields a GitHub raw url with version `v`, whose segment 7 as a GitLab url is still the old one |
| Registry.StdTags | registry.ts:175-177 | the std listing is no longer than the tag list |
| Registry.StdTagsAppend | registry.ts:175-177 | filtering and mapping commute with concatenation |
| Registry.StdTagsOne | registry.ts:175-177 | a tag not starting with `std/` is dropped; any other becomes `v` followed by its second `/`-segment |
| Registry.SegmentOr | registry.ts:323 | a destructured segment past the end renders as "undefined" |
| Registry.OriginOf | registry.ts:133-325 | name-based registries fail exactly when there is no `@`; std lists the `denoland/deno` tags; unpkg, jspm and pika browse unpkg; deno.land/x reads the database under `name()`; unpkg, jspm and pika browse `name()`; denopkg lists the tags of segment 3 and `name()`; GitHub and GitLab raw list the tags of segments 3 and 4 |
| Registry.OriginOfMatched | registry.ts:133-325 | every url its registry recognises has a release origin |
| Registry.DenoLandRepo | registry.ts:141-151 | the database entry yields that repository's GitHub tags exactly when it exists with type `github`; another type fails with "has unsupported type" |
| Registry.KeysDiffer | registry.ts:102-114 | GitHub and GitLab repositories never share a cache key |
| Registry.GithubKeyInjective | registry.ts:102 | repositories with `/`-free owners have distinct cache keys |
| Registry.FetchReleases | registry.ts:66-93 | a cached key returns the stored list and changes nothing; otherwise the concatenation of all pages is returned and stored under the key |
| Registry.GithubReleases | registry.ts:95-105 | `fetchReleases` under the key `github:owner/repo` |
| Registry.GitlabReleases | registry.ts:107-117 | `fetchReleases` under the key `gitlab:owner/repo` |
| Registry.UnpkgVersions | registry.ts:192-199 | the option list in reverse order |
| Registry.DenoStdTest | registry_test.ts:18-21 | every `https://deno.land/std@...` url matches the std pattern |
| Registry.DenoStdLookup | registry_test.ts:18-21 | every `https://deno.land/std@...` url is looked up as a std url |
| Registry.DenoLandTest | registry_test.ts:27-30 | every `https://deno.land/x/name@...` url matches the deno.land/x pattern |
| Versioned.Versioned | versioned.ts:1-8 | none exactly when no implementation matches; otherwise the first that matches, in `IMPLS` order |
| Versioned.VersionedStd | versioned_test.ts:4-7 | every `https://deno.land/std@...` url is recognised as std |
| Versioned.Slot | versioned.ts:22-32 | the first `@` that some `/` follows, and the first `/` after it |
| Versioned.At | versioned.ts:22-24 | a url without such an `@` is unchanged |
| Versioned.Current | versioned.ts:26-32 | fails with "Unable to find version in " and the url exactly when no `@` precedes a `/`; the version has no `/` |
| Versioned.Decompose | versioned.ts:26-32 | a url with a version is its prefix, `@`, the version, `/`, and the rest |
| Versioned.AtOfLayout | versioned.ts:22-24 | the version between the first `@` and the next `/` is replaced |
| Versioned.CurrentOfLayout | versioned.ts:26-32 | the version is the text between the first `@` and the next `/` |
| Versioned.RoundTrip | versioned.ts:22-32 | the current version of `at(v)` is `v` |
| Versioned.AtCurrent | versioned.ts:22-32 | `at` of the current version is the identity |
| Versioned.OriginOf | versioned.ts:78-183 | name-based kinds fail exactly when there is no `@`; std lists the `denoland/deno` releases unfiltered; deno.land/x reads the database under `name()`, unpkg browses `name()`, denopkg lists segment 3 and `name()` |
| Versioned.ReleasesKeyInjective | versioned.ts:49 | repositories with `/`-free owners have distinct cache keys |
| Versioned.GithubReleases | versioned.ts:44-63 | a cached key returns the stored list; otherwise the fetched list is stored and returned |
| Mod.Modifier | mod.ts:97-98 | the udd modifier is present exactly when the url has a `#` part that is not blank, and is then that part with its spaces removed |
| Mod.Pick | mod.ts:114-120 | a target exactly when a non-empty version was found |
| Mod.Choose | mod.ts:84-120 | invalid exactly when a modifier's range text is not valid semver; a target is non-empty and the first wanted version; no target means none is wanted or the first wanted one is empty |
| Mod.Step | mod.ts:76-135 | fails exactly when the version cannot be read or is empty; an invalid fragment gives its message with `success` unset; no target gives "no compatible version found" with `success` unset; a target is the message, with `success` true on a dry run and otherwise the test's verdict on the updated file, which is kept when it passes and replaced back when it fails |
| Mod.StepMessages | mod.ts:101-134 | a result without `success` carries one of the two refusal messages; one with `success` names a listed version |
| Mod.DefaultValidatorNeverFails | mod.ts:49 | with the default test, no update reports failure |
| Mod.FailedUpdateRestores | mod.ts:122-150 | a failed test leaves the file as it was; a passing one leaves it fully updated |
| Mod.CurrentTargetIsIdentity | mod.ts:122-150 | updating to the current version leaves the file unchanged |
| Mod.Matched | mod.ts:66-71 | only urls some registry recognises are processed |
| Mod.AdvanceSkips | mod.ts:68-69 | an unrecognised url changes nothing |
| Mod.AdvanceUpdates | mod.ts:68-70 | a recognised url appends its result and moves the file on |
| Mod.AdvanceFails | mod.ts:68-70 | an error from `update` stops the run with that error |
| Mod.AdvanceDefaultValidator | mod.ts:49 | with the default test, one iteration adds no failed result |
| Mod.RunSpecStep | mod.ts:66-72 | a run over one more url is one more iteration |
| Mod.RunResultsFollowUrls | mod.ts:58-74 | without error, the results are for exactly the recognised urls, in order |
| Mod.DryRunKeepsFile | mod.ts:122-128 | a dry run never changes the file |
| Mod.DefaultValidatorRun | mod.ts:49 | with the default test, a run reports no failed update |
| Mod.RunStopsAtError | mod.ts:66-72 | once a run has failed, later urls change nothing |
| Mod.Udd.constructor | mod.ts:41-51 | registries and test default to `REGISTRIES` and a test that passes |
| Mod.Udd.Replace | mod.ts:153-158 | the file becomes its split-join replacement |
| Mod.Udd.MaybeReplace | mod.ts:138-151 | the file and the failure flag are those of the test-guarded substitution |
| Mod.Udd.Update | mod.ts:76-135 | the result and the new file are those of `Step`, or its error with the file unchanged |
| Mod.Udd.Run | mod.ts:58-74 | the results, the error and the final file are those of `RunSpec` |
| Updater.Newest | update.ts:58 | the first listed version, or "undefined" for an empty list |
| Updater.OneSpec | update.ts:45-82 | fails exactly when the current version cannot be read; already at the newest version leaves the file unchanged; otherwise the url moves to `versions[0]`, kept when the test passes and substituted back when it fails |
| Updater.Advance | update.ts:36-41 | an unrecognised url or an earlier error changes nothing; a recognised url takes the file to `updateOne`'s result, or stops with its error |
| Updater.UpdateSpecStep | update.ts:36-41 | an update over one more url is one more iteration |
| Updater.UpdateStopsAtError | update.ts:36-41 | once an update has failed, later urls change nothing |
| Updater.UnrecognisedUrlsSkipped | update.ts:36-41 | a file whose urls no implementation recognises is left unchanged |
| Updater.OneCommitsOrRestores | update.ts:65-82 | a failed test restores the file; a passing one leaves it fully updated |
| Updater.CurrentIsFixedPoint | update.ts:58-61 | replacing a url by itself at its current version leaves the file unchanged |
| Updater.Update.constructor | update.ts:19-22 | keeps the file and the test |
| Updater.Update.Replace | update.ts:88-92 | the file becomes its split-join replacement |
| Updater.Update.UpdateIfTestPasses | update.ts:65-82 | the file and the revert flag are those of the test-guarded substitution |
| Updater.Update.UpdateOne | update.ts:45-63 | the new file is that of `OneSpec`, or its error with the file unchanged |
| Updater.Update.Run | update.ts:24-43 | a test failing before any change aborts with "Tests failed prior to update" and leaves the file; otherwise the file and error are those of `UpdateSpec` |

## Left out

- The network is an input. `fetch`, the JSON and Atom bodies and the HTML option scraping are not modelled. Each `all()` is given the list it would fetch, or the pages of a paginated listing. Because `all()` is a total function here, its errors that do not come from the network, such as a deno.land module missing from the database or an unsupported hosting type (modelled by `Registry.DenoLandRepo`), never stop a run of `Mod.RunSpec` or `Updater.UpdateSpec`.
- `parseLinkHeader` is left out. `fetchReleases` is given the chain of pages the `next` links lead to.
- No bound on the number of pages is modelled. The source compares a counter `i` with 3, but `i` is never incremented, so no bound applies.
- Reading and writing the file (`Deno.readFile`, `Deno.writeFile`, text encoding) is left out. The file is the `content` field of `Udd` and `Update`.
- `importUrls` in `search.ts` is not part of this model. The urls a file holds are an input list.
- Progress output, `quiet`, `console.log` and `main.ts` are left out, because they have no effect on the file or the results.
- The tests the user supplies are a predicate on the file text, because they read the file on disk.
- Asynchrony is left out, and `Deno.exit(1)` after the preflight failure becomes a returned error.
- The deno.land std semver library that `mod.ts` imports (`satisfies`, `SemVer`) is a parameter. It is not the `semver.ts` of this repository.
- `mod.ts` imports `RegistryCtor`, which `registry.ts` does not export. Registries are modelled as a list of kinds in the order of `REGISTRIES`.
- Registry.DefaultAt: its contract states only the unmatched case. The rewrite is stated by `Registry.AtOfLayout` and `Registry.AtOfLayoutAtEnd` for urls whose first `@` ends a `/`-free, line-terminator-free version.
- Versioned.At: its contract states only the unmatched case. The rewrite is stated by `Versioned.AtOfLayout` and `Versioned.RoundTrip`.
- Registry.Version: its contract states only the failure message. What each kind reads is stated by `Registry.GithubRawRoundTrip`, `Registry.GitlabRawNoRoundTrip` and the `Registry.DefaultVersion` lemmas.
- Registry.StdTags: its contract states only the length bound. The filter and the mapping are stated by `Registry.StdTagsOne` and `Registry.StdTagsAppend`.
- `$` patterns in the replacement text of `String.prototype.replace` are not interpreted. A version containing `$&` or `$1` would be expanded by JavaScript.
- Numbers are unbounded naturals. `parseInt` loses precision above 2^53, and the model does not.
- Strings compare by character. JavaScript compares UTF-16 code units, and the two orders agree on the characters a version contains.
- The message texts of the JavaScript `TypeError`s are left out. These come from destructuring a missing deno.land database entry and from indexing an empty version. The model uses fixed messages of its own.
- Prototype properties of the deno.land database object are left out. Only the entries present are looked up.
