/** The older adapter set of versioned.ts: four kinds sharing the patterns of
    registry.ts, a `current` that needs a `/` after the version, an `at`
    that leaves a url without one alone, and a release cache keyed by
    `owner/repo`. */
module Versioned {
  import opened Wrappers
  import opened Lists
  import opened Registry
  import Cache

  /** `IMPLS`, in the order `versioned` tries them. */
  const IMPLS: seq<RegistryKind> := [DenoStd, DenoLand, Unpkg, Denopkg]

  /** `versioned(url)`: the first of `IMPLS` whose pattern matches. The four
      patterns are the ones registry.ts gives the same kinds. */
  function Versioned(url: string): (r: Option<RegistryUrl>)
    ensures r.None? <==> forall i :: 0 <= i < |IMPLS| ==> !Test(IMPLS[i], url)
    ensures r.Some? ==> && r.value.url == url && Test(r.value.kind, url)
                        && exists i :: FirstAt(IMPLS, Tests(url), i) && IMPLS[i] == r.value.kind
  {
    Lookup(url, IMPLS)
  }

  /** Every `https://deno.land/std@…` url is a DenoStd url, as `denolandStd`
      checks. */
  lemma VersionedStd(rest: string)
    ensures var url := "https://deno.land/std@" + rest;
            Versioned(url) == Some(RegistryUrl(DenoStd, url))
  {
    DenoStdTest(rest);
    LookupFirst("https://deno.land/std@" + rest, IMPLS, 0);
  }

  /** `\@([^\/]*?)\/`: the first `@` and the first `/` after it. The lazy
      run may take anything but `/`, so the pattern matches exactly when
      some `/` follows some `@`, and the first `@` is then the one used. */
  function Slot(url: string): (r: Option<(nat, nat)>)
    ensures r.None? <==> forall i, j :: 0 <= i < j < |url| && url[i] == '@' ==> url[j] != '/'
    ensures r.Some? ==> && r.value.0 < r.value.1 < |url|
                        && url[r.value.0] == '@' && url[r.value.1] == '/'
                        && (forall k :: 0 <= k < r.value.0 ==> url[k] != '@')
                        && (forall k :: r.value.0 < k < r.value.1 ==> url[k] != '/')
  {
    match FirstOf(url, 0, {'@'})
    case None => None
    case Some(i) =>
      match FirstOf(url, i + 1, {'/'})
      case None => None
      case Some(j) => Some((i, j))
  }

  /** `defaultAt(that, version)`: the first `@…/` becomes `@version/`; a url
      without one comes back unchanged. */
  function At(url: string, version: string): (r: string)
    ensures Slot(url).None? ==> r == url
  {
    match Slot(url)
    case None => url
    case Some((i, j)) => url[..i] + "@" + version + "/" + url[j + 1..]
  }

  /** `defaultCurrent(that)`: the text between the first `@` and the next
      `/`, possibly empty. */
  function Current(url: string): (r: Result<string>)
    ensures r.Failure? <==> forall i, j :: 0 <= i < j < |url| && url[i] == '@' ==> url[j] != '/'
    ensures r.Failure? ==> r.error == "Unable to find version in " + url
    ensures r.Success? ==> '/' !in r.value
  {
    match Slot(url)
    case None => Failure("Unable to find version in " + url)
    case Some((i, j)) => Success(url[i + 1..j])
  }

  /** Every url with an `@…/` slot is `p@w/rest`, with no `@` in `p` and no
      `/` in `w`, and its current version is `w`. */
  lemma Decompose(url: string)
    requires Current(url).Success?
    ensures var (i, j) := Slot(url).value;
            && url == url[..i] + "@" + url[i + 1..j] + "/" + url[j + 1..]
            && '@' !in url[..i] && '/' !in url[i + 1..j]
            && Current(url).value == url[i + 1..j]
  {
    var (i, j) := Slot(url).value;
    assert url == url[..i] + [url[i]] + url[i + 1..j] + [url[j]] + url[j + 1..];
  }

  /** `at` on `p@w/rest`: only `w` is replaced. */
  lemma AtOfLayout(p: string, w: string, rest: string, v: string)
    requires '@' !in p && '/' !in w
    ensures At(p + "@" + w + "/" + rest, v) == p + "@" + v + "/" + rest
  {
    var u := p + "@" + w + "/" + rest;
    Layout(p, w, rest);
    FirstAtSign(p, w, rest);
    SlashAfter(p, w, rest, {'/'});
  }

  /** `current` on `p@w/rest` reads `w`. */
  lemma CurrentOfLayout(p: string, w: string, rest: string)
    requires '@' !in p && '/' !in w
    ensures Current(p + "@" + w + "/" + rest) == Success(w)
  {
    Layout(p, w, rest);
    FirstAtSign(p, w, rest);
    SlashAfter(p, w, rest, {'/'});
  }

  /** The round trip: on a url that has a version, `current(at(v)) == v` for
      every `v` without `/`, the empty one included. */
  lemma RoundTrip(url: string, v: string)
    requires Current(url).Success? && '/' !in v
    ensures Current(At(url, v)) == Success(v)
  {
    Decompose(url);
    var (i, j) := Slot(url).value;
    AtOfLayout(url[..i], url[i + 1..j], url[j + 1..], v);
    CurrentOfLayout(url[..i], v, url[j + 1..]);
  }

  /** `at` with the current version gives back the url. */
  lemma AtCurrent(url: string)
    requires Current(url).Success?
    ensures At(url, Current(url).value) == url
  {
    Decompose(url);
    var (i, j) := Slot(url).value;
    AtOfLayout(url[..i], url[i + 1..j], url[j + 1..], url[i + 1..j]);
  }

  /** The listing each kind's `all()` asks for: the deno repository's tags
      unfiltered for DenoStd, the database for DenoLand, the browse page for
      Unpkg, and segment 3 and the name for Denopkg. */
  function OriginOf(r: RegistryUrl): (o: Result<Origin>)
    requires r.kind in IMPLS
    ensures o.Failure? <==> r.kind != DenoStd && '@' !in r.url
    ensures o.Failure? ==> o == Failure("Package name not found in " + r.url)
    ensures r.kind == DenoStd ==> o == Success(GithubTags("denoland", "deno"))
    ensures r.kind == DenoLand && o.Success? ==> o.value == DenoLandDatabase(Name(r).value)
    ensures r.kind == Unpkg && o.Success? ==> o.value == UnpkgBrowse(Name(r).value)
    ensures r.kind == Denopkg && o.Success? ==> o.value == GithubTags(SegmentOr(r.url, 3), Name(r).value)
  {
    match r.kind
    case DenoStd => Success(GithubTags("denoland", "deno"))
    case DenoLand =>
      var n :- DefaultName(r.url);
      Success(DenoLandDatabase(n))
    case Unpkg =>
      var n :- DefaultName(r.url);
      Success(UnpkgBrowse(n))
    case Denopkg =>
      var n :- DefaultName(r.url);
      Success(GithubTags(SegmentOr(r.url, 3), n))
  }

  /** The cache key of `githubReleases`: `owner/repo`. */
  function ReleasesKey(owner: string, repo: string): string {
    owner + "/" + repo
  }

  /** Repositories named by `/`-free owners have distinct keys. */
  lemma ReleasesKeyInjective(o1: string, r1: string, o2: string, r2: string)
    requires '/' !in o1 && '/' !in o2
    requires ReleasesKey(o1, r1) == ReleasesKey(o2, r2)
    ensures o1 == o2 && r1 == r2
  {
    SlashSplits(o1, r1, o2, r2);
  }

  /** `githubReleases(owner, repo, cache)`: the cached list when the key is
      present; otherwise `fetched`, the tags read from the release feed, is
      stored under the key and returned. */
  method GithubReleases(cache: Cache.ReleaseCache, owner: string, repo: string, fetched: seq<string>)
    returns (versions: seq<string>)
    modifies cache
    ensures var key := ReleasesKey(owner, repo);
            && (key in old(cache.entries) ==>
                  versions == old(cache.entries)[key] && cache.entries == old(cache.entries))
            && (key !in old(cache.entries) ==>
                  versions == fetched && cache.entries == old(cache.entries)[key := fetched])
            && key in cache.entries && cache.entries[key] == versions
  {
    var key := ReleasesKey(owner, repo);
    var hit := cache.Get(key);
    if hit.Some? {
      return hit.value;
    }
    versions := fetched;
    cache.Set(key, versions);
  }
}
