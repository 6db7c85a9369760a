/** mod.ts: the `Udd` updater. For each registry url found in a file it reads
    the current version, chooses a target from the newest-first release list
    (honouring npm-style modifiers and `#` fragments), substitutes the new url
    for the old one throughout the file, runs the validator, and substitutes
    back when the validator fails. */
module Mod {
  import opened Wrappers
  import opened Text
  import opened Lists
  import opened Registry

  /** The std semver library mod.ts imports: `satisfies(version, range)` and
      whether `new SemVer(text)` accepts `text`. It is not the semver.ts of
      this repository, so both are given. */
  datatype StdSemver = StdSemver(satisfies: (string, string) -> bool, valid: string -> bool)

  /** `UddOptions`: `dryRun`, the `test` validator (here judged on the text
      of the file it would run against) and `_registries`. */
  datatype UddOptions = UddOptions(
    dryRun: bool,
    test: Option<string -> bool>,
    registries: Option<seq<RegistryKind>>)

  /** `UddResult`; an unset `message` or `success` is `None`. */
  datatype UddResult = UddResult(
    initUrl: string,
    initVersion: string,
    message: Option<string>,
    success: Option<bool>)

  /** The validator used when no `test` is given: it never fails. */
  const ALWAYS_PASSES: string -> bool := _ => true

  /** `^[\~\^\=\<]`: the first characters that mark an npm-style range. */
  const NPM_MODIFIERS: set<char> := {'~', '^', '=', '<'}

  /** The error reading `initVersion[0].match` throws on an empty version. */
  const EMPTY_VERSION_ERROR: string := "Cannot read properties of undefined (reading 'match')"

  /** `url.split("#").at(1)?.replaceAll(" ", "")`, kept only when non-empty
      (an empty string is falsy). */
  function Modifier(url: string): (m: Option<string>)
    ensures m.None? <==> |Split(url, "#")| < 2 || ReplaceAll(Split(url, "#")[1], " ", "") == ""
    ensures m.Some? ==> m.value != ""
    ensures m.Some? ==> m.value == ReplaceAll(Split(url, "#")[1], " ", "")
  {
    var parts := Split(url, "#");
    if |parts| < 2 then None
    else
      var m := ReplaceAll(parts[1], " ", "");
      if m == "" then None else Some(m)
  }

  /** The versions acceptable as a target: those satisfying the fragment's
      range when there is one, else those satisfying the current version
      when it starts with an npm modifier, else any version (so the first,
      the newest, is taken). */
  function Wanted(url: string, initVersion: string, std: StdSemver): string -> bool
    requires initVersion != ""
  {
    match Modifier(url)
    case Some(m) => (v: string) => std.satisfies(v, m)
    case None =>
      if initVersion[0] in NPM_MODIFIERS then (v: string) => std.satisfies(v, initVersion)
      else (v: string) => true
  }

  /** The outcome of target selection. */
  datatype Plan = Invalid(modifier: string) | NoTarget | Target(version: string)

  /** `!newVersion`: a missing or empty candidate is no target. */
  function Pick(v: Option<string>): (p: Plan)
    ensures p.Target? <==> v.Some? && v.value != ""
    ensures p.Target? ==> p.version == v.value
    ensures !p.Invalid?
  {
    if v.None? || v.value == "" then NoTarget else Target(v.value)
  }

  /** Target selection in `update`: a fragment whose tail is not valid semver
      is refused; otherwise the target is the first listed version the
      fragment, or else the npm modifier, accepts, and with neither it is
      `versions[0]`. */
  function Choose(url: string, initVersion: string, versions: seq<string>, std: StdSemver): (p: Plan)
    requires initVersion != ""
    ensures p.Invalid? <==> Modifier(url).Some? && !std.valid(Modifier(url).value[1..])
    ensures p.Invalid? ==> p.modifier == Modifier(url).value
    ensures p.Target? ==> && p.version != ""
                          && exists i :: FirstAt(versions, Wanted(url, initVersion, std), i)
                                         && versions[i] == p.version
    ensures p.NoTarget? ==> || (forall i :: 0 <= i < |versions| ==> !Wanted(url, initVersion, std)(versions[i]))
                            || Find(versions, Wanted(url, initVersion, std)) == Some("")
  {
    var want := Wanted(url, initVersion, std);
    match Modifier(url)
    case Some(m) =>
      if !std.valid(m[1..]) then Invalid(m) else Pick(Find(versions, want))
    case None =>
      if initVersion[0] in NPM_MODIFIERS then Pick(Find(versions, want))
      else if versions == [] then NoTarget
      else
        assert FirstAt(versions, want, 0);
        Pick(Some(versions[0]))
  }

  /** What `update` does for one url on a file holding `content`: its result
      and the file text afterwards, or the error it throws. */
  function Step(content: string, r: RegistryUrl, versions: seq<string>, std: StdSemver,
                dryRun: bool, passes: string -> bool): (o: Result<(UddResult, string)>)
    ensures o.Failure? <==> Version(r).Failure? || Version(r).value == ""
    ensures o.Failure? && Version(r).Failure? ==> o.error == Version(r).error
    ensures o.Success? ==> && o.value.0.initUrl == r.url
                           && o.value.0.initVersion == Version(r).value
                           && o.value.0.message.Some?
    ensures o.Success? && (dryRun || o.value.0.success.None?) ==> o.value.1 == content
    ensures o.Success? ==>
              var iv := Version(r).value;
              var p := Choose(r.url, iv, versions, std);
              && (p.Invalid? ==>
                    o.value.0 == UddResult(r.url, iv, Some("invalid semver fragment: " + p.modifier), None))
              && (p.NoTarget? ==>
                    o.value.0 == UddResult(r.url, iv, Some("no compatible version found"), None))
              && (p.Target? ==>
                    var updated := ReplaceAll(content, r.url, At(r, p.version).url);
                    && o.value.0.message == Some(p.version)
                    && o.value.0.success == Some(dryRun || passes(updated))
                    && (!dryRun && passes(updated) ==> o.value.1 == updated)
                    && (!dryRun && !passes(updated) ==> o.value.1 == ReplaceAll(updated, At(r, p.version).url, r.url)))
  {
    var initVersion :- Version(r);
    if initVersion == "" then Failure(EMPTY_VERSION_ERROR)
    else
      match Choose(r.url, initVersion, versions, std)
      case Invalid(m) =>
        Success((UddResult(r.url, initVersion, Some("invalid semver fragment: " + m), None), content))
      case NoTarget =>
        Success((UddResult(r.url, initVersion, Some("no compatible version found"), None), content))
      case Target(t) =>
        if dryRun then Success((UddResult(r.url, initVersion, Some(t), Some(true)), content))
        else
          var (after, failed) := Substitute(content, r.url, At(r, t).url, passes);
          Success((UddResult(r.url, initVersion, Some(t), Some(!failed)), after))
  }

  /** A result without `success` carries one of the two refusal messages;
      one with `success` names a listed version as its message. */
  lemma StepMessages(content: string, r: RegistryUrl, versions: seq<string>, std: StdSemver,
                     dryRun: bool, passes: string -> bool)
    requires Step(content, r, versions, std, dryRun, passes).Success?
    ensures var res := Step(content, r, versions, std, dryRun, passes).value.0;
            && (res.success.None? ==>
                  || res.message == Some("no compatible version found")
                  || exists m :: Modifier(r.url) == Some(m) && res.message == Some("invalid semver fragment: " + m))
            && (res.success.Some? ==> exists i :: 0 <= i < |versions| && res.message == Some(versions[i]))
  {
    var plan := Choose(r.url, Version(r).value, versions, std);
    if plan.Invalid? {
      assert Modifier(r.url) == Some(plan.modifier);
    }
  }

  /** With the default validator no update is reported as failed. */
  lemma DefaultValidatorNeverFails(content: string, r: RegistryUrl, versions: seq<string>,
                                   std: StdSemver, dryRun: bool)
    requires Step(content, r, versions, std, dryRun, ALWAYS_PASSES).Success?
    ensures Step(content, r, versions, std, dryRun, ALWAYS_PASSES).value.0.success != Some(false)
  {
  }

  /** The transaction of `maybeReplace`: when the new url does not occur in
      the file and has no border, a failed validation leaves the file exactly
      as it was, and a passed one leaves every old url replaced. */
  lemma FailedUpdateRestores(content: string, r: RegistryUrl, versions: seq<string>,
                             std: StdSemver, passes: string -> bool, t: string)
    requires Version(r).Success? && Version(r).value != ""
    requires Choose(r.url, Version(r).value, versions, std) == Target(t)
    requires var b := At(r, t).url; |b| > 0 && Absent(content, b) && Unbordered(b)
    ensures var o := Step(content, r, versions, std, false, passes);
            && o.Success?
            && o.value.0.success == Some(passes(ReplaceAll(content, r.url, At(r, t).url)))
            && (o.value.0.success == Some(false) ==> o.value.1 == content)
            && (o.value.0.success == Some(true) ==> o.value.1 == ReplaceAll(content, r.url, At(r, t).url))
  {
    SubstituteCommitsOrRestores(content, r.url, At(r, t).url, passes);
  }

  /** There is no already-latest check: when the target is the current
      version and a `/` follows it, `at` rebuilds the same url, the
      substitution is the identity, and the result reports the validator's
      verdict on the unchanged file. */
  lemma CurrentTargetIsIdentity(content: string, kind: RegistryKind, p: string, w: string,
                                rest: string, versions: seq<string>, std: StdSemver,
                                passes: string -> bool)
    requires kind !in {GithubRaw, GitlabRaw}
    requires '@' !in p && w != "" && '/' !in w && NoLineTerminator(w)
    requires var url := p + "@" + w + "/" + rest;
             Choose(url, w, versions, std) == Target(w)
    ensures var url := p + "@" + w + "/" + rest;
            Step(content, RegistryUrl(kind, url), versions, std, false, passes)
              == Success((UddResult(url, w, Some(w), Some(passes(content))), content))
  {
    var url := p + "@" + w + "/" + rest;
    AtCurrentVersion(p, w, rest);
    ReplaceAllSelf(content, url);
  }

  // ---------------------------------------------------------------------------
  // `run`

  /** The urls `lookup` recognises, in order. */
  function Matched(urls: seq<string>, registries: seq<RegistryKind>): (m: seq<string>)
    ensures |m| <= |urls|
    ensures forall k :: 0 <= k < |m| ==> m[k] in urls && Lookup(m[k], registries).Some?
    decreases |urls|
  {
    if urls == [] then []
    else
      var prev := Matched(urls[..|urls| - 1], registries);
      var u := urls[|urls| - 1];
      if Lookup(u, registries).Some? then prev + [u] else prev
  }

  /** The `initUrl` of each result. */
  function InitUrls(results: seq<UddResult>): (us: seq<string>)
    ensures |us| == |results| && forall k :: 0 <= k < |results| ==> us[k] == results[k].initUrl
  {
    seq(|results|, k requires 0 <= k < |results| => results[k].initUrl)
  }

  /** The state of a run after some urls: the results so far, the file, and
      the error that stopped it, if any. */
  datatype RunState = RunState(results: seq<UddResult>, content: string, error: Option<string>)

  /** One iteration of `run`'s loop on the url `u`: skipped when no registry
      recognises it, otherwise updated; nothing happens after an error. */
  function Advance(s: RunState, u: string, registries: seq<RegistryKind>,
                   releases: RegistryUrl -> seq<string>, std: StdSemver,
                   dryRun: bool, passes: string -> bool): (t: RunState)
    ensures |t.results| <= |s.results| + 1
    ensures s.error.Some? ==> t == s
  {
    if s.error.Some? then s
    else
      match Lookup(u, registries)
      case None => s
      case Some(r) =>
        match Step(s.content, r, releases(r), std, dryRun, passes)
        case Failure(e) => RunState(s.results, s.content, Some(e))
        case Success((res, after)) => RunState(s.results + [res], after, None)
  }

  lemma AdvanceSkips(s: RunState, u: string, registries: seq<RegistryKind>,
                     releases: RegistryUrl -> seq<string>, std: StdSemver,
                     dryRun: bool, passes: string -> bool)
    requires Lookup(u, registries).None?
    ensures Advance(s, u, registries, releases, std, dryRun, passes) == s
  {
  }

  lemma AdvanceUpdates(s: RunState, u: string, r: RegistryUrl, registries: seq<RegistryKind>,
                       releases: RegistryUrl -> seq<string>, std: StdSemver,
                       dryRun: bool, passes: string -> bool, res: UddResult, after: string)
    requires s.error.None? && Lookup(u, registries) == Some(r)
    requires Step(s.content, r, releases(r), std, dryRun, passes) == Success((res, after))
    ensures Advance(s, u, registries, releases, std, dryRun, passes)
            == RunState(s.results + [res], after, None)
  {
  }

  lemma AdvanceFails(s: RunState, u: string, r: RegistryUrl, registries: seq<RegistryKind>,
                     releases: RegistryUrl -> seq<string>, std: StdSemver,
                     dryRun: bool, passes: string -> bool)
    requires s.error.None? && Lookup(u, registries) == Some(r)
    requires Step(s.content, r, releases(r), std, dryRun, passes).Failure?
    ensures Advance(s, u, registries, releases, std, dryRun, passes)
            == RunState(s.results, s.content, Some(Step(s.content, r, releases(r), std, dryRun, passes).error))
  {
  }

  /** No result reports a failed update. */
  predicate NoneFailed(results: seq<UddResult>) {
    forall k :: 0 <= k < |results| ==> results[k].success != Some(false)
  }

  /** With the default validator, an iteration adds no failed result. */
  lemma AdvanceDefaultValidator(s: RunState, u: string, registries: seq<RegistryKind>,
                                releases: RegistryUrl -> seq<string>, std: StdSemver, dryRun: bool)
    requires NoneFailed(s.results)
    ensures NoneFailed(Advance(s, u, registries, releases, std, dryRun, ALWAYS_PASSES).results)
  {
    var l := Lookup(u, registries);
    if s.error.None? && l.Some? {
      var r := l.value;
      var o := Step(s.content, r, releases(r), std, dryRun, ALWAYS_PASSES);
      if o.Success? {
        DefaultValidatorNeverFails(s.content, r, releases(r), std, dryRun);
        AdvanceUpdates(s, u, r, registries, releases, std, dryRun, ALWAYS_PASSES, o.value.0, o.value.1);
      } else {
        AdvanceFails(s, u, r, registries, releases, std, dryRun, ALWAYS_PASSES);
      }
    } else if l.None? {
      AdvanceSkips(s, u, registries, releases, std, dryRun, ALWAYS_PASSES);
    }
  }

  /** `run` over `urls` (the imports the scan found, in order) on a file
      holding `content`: each url in turn, stopping at the first error. */
  function RunSpec(content: string, urls: seq<string>, registries: seq<RegistryKind>,
                   releases: RegistryUrl -> seq<string>, std: StdSemver,
                   dryRun: bool, passes: string -> bool): (s: RunState)
    ensures |s.results| <= |urls|
    decreases |urls|
  {
    if urls == [] then RunState([], content, None)
    else
      Advance(RunSpec(content, urls[..|urls| - 1], registries, releases, std, dryRun, passes),
              urls[|urls| - 1], registries, releases, std, dryRun, passes)
  }

  /** The run over the first `n + 1` urls is one more iteration. */
  lemma RunSpecStep(content: string, urls: seq<string>, n: nat, registries: seq<RegistryKind>,
                    releases: RegistryUrl -> seq<string>, std: StdSemver,
                    dryRun: bool, passes: string -> bool)
    requires n < |urls|
    ensures RunSpec(content, urls[..n + 1], registries, releases, std, dryRun, passes)
            == Advance(RunSpec(content, urls[..n], registries, releases, std, dryRun, passes),
                       urls[n], registries, releases, std, dryRun, passes)
  {
    assert urls[..n + 1][..n] == urls[..n];
  }

  /** A run that completes has one result per recognised url, in url order. */
  lemma {:induction false} RunResultsFollowUrls(content: string, urls: seq<string>,
                                                registries: seq<RegistryKind>,
                                                releases: RegistryUrl -> seq<string>,
                                                std: StdSemver, dryRun: bool,
                                                passes: string -> bool)
    requires RunSpec(content, urls, registries, releases, std, dryRun, passes).error.None?
    ensures InitUrls(RunSpec(content, urls, registries, releases, std, dryRun, passes).results)
            == Matched(urls, registries)
    decreases |urls|
  {
    if urls != [] {
      var front := urls[..|urls| - 1];
      var s := RunSpec(content, front, registries, releases, std, dryRun, passes);
      RunResultsFollowUrls(content, front, registries, releases, std, dryRun, passes);
      match Lookup(urls[|urls| - 1], registries)
      case None =>
      case Some(r) =>
        var res := Step(s.content, r, releases(r), std, dryRun, passes).value.0;
        assert InitUrls(s.results + [res]) == InitUrls(s.results) + [res.initUrl];
    }
  }

  /** A dry run never changes the file. */
  lemma {:induction false} DryRunKeepsFile(content: string, urls: seq<string>,
                                           registries: seq<RegistryKind>,
                                           releases: RegistryUrl -> seq<string>,
                                           std: StdSemver, passes: string -> bool)
    ensures RunSpec(content, urls, registries, releases, std, true, passes).content == content
    decreases |urls|
  {
    if urls != [] {
      DryRunKeepsFile(content, urls[..|urls| - 1], registries, releases, std, passes);
    }
  }

  /** With the default validator, no result of a run reports a failure. */
  lemma {:induction false} DefaultValidatorRun(content: string, urls: seq<string>,
                                               registries: seq<RegistryKind>,
                                               releases: RegistryUrl -> seq<string>,
                                               std: StdSemver, dryRun: bool)
    ensures NoneFailed(RunSpec(content, urls, registries, releases, std, dryRun, ALWAYS_PASSES).results)
    decreases |urls|
  {
    if urls != [] {
      var front := urls[..|urls| - 1];
      var s := RunSpec(content, front, registries, releases, std, dryRun, ALWAYS_PASSES);
      DefaultValidatorRun(content, front, registries, releases, std, dryRun);
      AdvanceDefaultValidator(s, urls[|urls| - 1], registries, releases, std, dryRun);
    }
  }

  // ---------------------------------------------------------------------------
  // The `Udd` object

  /** An updater bound to one file, whose text is `content`. */
  class Udd {
    var content: string
    const dryRun: bool
    const passes: string -> bool
    const registries: seq<RegistryKind>

    /** `new Udd(filename, options)`: the registries default to
        `REGISTRIES`, the validator to one that always passes. */
    constructor(file: string, options: UddOptions)
      ensures content == file && dryRun == options.dryRun
      ensures registries == if options.registries.Some? then options.registries.value else REGISTRIES
      ensures passes == if options.test.Some? then options.test.value else ALWAYS_PASSES
    {
      content := file;
      dryRun := options.dryRun;
      registries := if options.registries.Some? then options.registries.value else REGISTRIES;
      match options.test {
        case Some(test) => passes := test;
        case None => passes := ALWAYS_PASSES;
      }
    }

    /** `replace(left, right)`: the whole file, with every `left` replaced
        by `right`. */
    method Replace(left: string, right: string)
      modifies this
      ensures content == ReplaceAll(old(content), left, right)
    {
      content := ReplaceAll(content, left, right);
    }

    /** `maybeReplace(url, newVersion, initUrl)`: substitute the new url,
        run the validator on the result, and substitute back if it fails. */
    method MaybeReplace(r: RegistryUrl, newVersion: string, initUrl: string) returns (failed: bool)
      modifies this
      ensures (content, failed) == Substitute(old(content), initUrl, At(r, newVersion).url, passes)
    {
      var newUrl := At(r, newVersion).url;
      Replace(initUrl, newUrl);
      failed := !passes(content);
      if failed {
        Replace(newUrl, initUrl);
      }
    }

    /** `update(url)`, with `versions` the release list `url.all()` yields. */
    method Update(r: RegistryUrl, versions: seq<string>, std: StdSemver) returns (res: Result<UddResult>)
      modifies this
      ensures var o := Step(old(content), r, versions, std, dryRun, passes);
              && (o.Failure? ==> res == Failure(o.error) && content == old(content))
              && (o.Success? ==> res == Success(o.value.0) && content == o.value.1)
    {
      var initUrl := r.url;
      var v := Version(r);
      if v.Failure? {
        return Failure(v.error);
      }
      var initVersion := v.value;
      if initVersion == "" {
        return Failure(EMPTY_VERSION_ERROR);
      }
      match Choose(r.url, initVersion, versions, std)
      case Invalid(m) =>
        res := Success(UddResult(initUrl, initVersion, Some("invalid semver fragment: " + m), None));
      case NoTarget =>
        res := Success(UddResult(initUrl, initVersion, Some("no compatible version found"), None));
      case Target(t) =>
        var failed := false;
        if !dryRun {
          failed := MaybeReplace(r, t, initUrl);
        }
        res := Success(UddResult(initUrl, initVersion, Some(t), Some(!failed)));
    }

    /** `run()`, with `urls` the imports found in the file, in order, and
        `releases` what `all()` yields for each recognised url. */
    method Run(urls: seq<string>, releases: RegistryUrl -> seq<string>, std: StdSemver)
      returns (res: Result<seq<UddResult>>)
      modifies this
      ensures var s := RunSpec(old(content), urls, registries, releases, std, dryRun, passes);
              && content == s.content
              && res == if s.error.Some? then Failure(s.error.value) else Success(s.results)
    {
      var results: seq<UddResult> := [];
      var i := 0;
      while i < |urls|
        invariant 0 <= i <= |urls|
        invariant RunSpec(old(content), urls[..i], registries, releases, std, dryRun, passes)
                  == RunState(results, content, None)
      {
        RunSpecStep(old(content), urls, i, registries, releases, std, dryRun, passes);
        ghost var s := RunState(results, content, None);
        var v := Lookup(urls[i], registries);
        if v.Some? {
          var one := Update(v.value, releases(v.value), std);
          if one.Failure? {
            AdvanceFails(s, urls[i], v.value, registries, releases, std, dryRun, passes);
            RunStopsAtError(old(content), urls, i + 1, registries, releases, std, dryRun, passes);
            return Failure(one.error);
          }
          AdvanceUpdates(s, urls[i], v.value, registries, releases, std, dryRun, passes, one.value, content);
          results := results + [one.value];
        } else {
          AdvanceSkips(s, urls[i], registries, releases, std, dryRun, passes);
        }
        i := i + 1;
      }
      assert urls[..i] == urls;
      res := Success(results);
    }
  }

  /** Once a run has failed, the later urls change nothing. */
  lemma {:induction false} RunStopsAtError(content: string, urls: seq<string>, n: nat,
                                           registries: seq<RegistryKind>,
                                           releases: RegistryUrl -> seq<string>,
                                           std: StdSemver, dryRun: bool, passes: string -> bool)
    requires n <= |urls|
    requires RunSpec(content, urls[..n], registries, releases, std, dryRun, passes).error.Some?
    ensures RunSpec(content, urls, registries, releases, std, dryRun, passes)
            == RunSpec(content, urls[..n], registries, releases, std, dryRun, passes)
    decreases |urls| - n
  {
    if n < |urls| {
      RunSpecStep(content, urls, n, registries, releases, std, dryRun, passes);
      RunStopsAtError(content, urls, n + 1, registries, releases, std, dryRun, passes);
    } else {
      assert urls[..n] == urls;
    }
  }
}
