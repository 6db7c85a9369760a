/** The registry adapters of registry.ts: the closed, ordered list of url
    kinds, the test each kind's pattern performs, first-match dispatch, and
    the string transforms that read and rewrite the version inside a url. */
module Registry {
  import opened Wrappers
  import opened Text
  import opened Lists
  import Cache

  /** The adapter classes, one constructor each. */
  datatype RegistryKind =
    | DenoStd | DenoLand | Unpkg | Denopkg | Jspm | Pika | GithubRaw | GitlabRaw

  /** `REGISTRIES`, in the order `lookup` tries them. */
  const REGISTRIES: seq<RegistryKind> :=
    [DenoStd, DenoLand, Unpkg, Denopkg, Jspm, Pika, GithubRaw, GitlabRaw]

  /** An adapter instance: its kind and the url it wraps. */
  datatype RegistryUrl = RegistryUrl(kind: RegistryKind, url: string)

  // ---------------------------------------------------------------------------
  // The patterns

  /** The characters the name and segment classes `[^\/\"\']` exclude. */
  const SEGMENT_STOPS: set<char> := {'/', '"', '\''}

  /** The index of the first character of `s` at or after `m` in `stops`. */
  function FirstOf(s: string, m: nat, stops: set<char>): (r: Option<nat>)
    ensures r.None? ==> forall i :: m <= i < |s| ==> s[i] !in stops
    ensures r.Some? ==> && m <= r.value < |s| && s[r.value] in stops
                        && forall i :: m <= i < r.value ==> s[i] !in stops
    decreases |s| - m
  {
    if m >= |s| then None
    else if s[m] in stops then Some(m)
    else FirstOf(s, m + 1, stops)
  }

  /** The first character in `stops` at or after `m` is at `p`. */
  lemma FirstOfIs(s: string, m: nat, stops: set<char>, p: nat)
    requires m <= p < |s| && s[p] in stops
    requires forall i :: m <= i < p ==> s[i] !in stops
    ensures FirstOf(s, m, stops) == Some(p)
  {
  }

  /** `https?:\/\/` at `k`: where the scheme ends. */
  function SchemeEnd(url: string, k: nat): (r: Option<nat>)
    ensures r.Some? ==> k < r.value <= |url|
  {
    if OccursAt(url, "https://", k) then Some(k + 8)
    else if OccursAt(url, "http://", k) then Some(k + 7)
    else None
  }

  /** `pat` at `k`, where each `.` of `pat` is the regex dot: any character
      but a line terminator. */
  predicate WildAt(url: string, k: nat, pat: string) {
    && k + |pat| <= |url|
    && forall i :: 0 <= i < |pat| ==>
         if pat[i] == '.' then !IsLineTerminator(url[k + i]) else url[k + i] == pat[i]
  }

  /** `[^\/\"\']*?\@` at `m`: the first of `/`, `"`, `'`, `@` from `m` is
      an `@`. */
  predicate NameAt(url: string, m: nat) {
    match FirstOf(url, m, SEGMENT_STOPS + {'@'})
    case None => false
    case Some(p) => url[p] == '@'
  }

  /** `[^\/\"\']+\/` (or `*?` when `nonEmpty` is false) at `m`: where the
      segment and its `/` end. */
  function SegmentEnd(url: string, m: nat, nonEmpty: bool): (r: Option<nat>)
    ensures r.Some? ==> m < r.value <= |url| && url[r.value - 1] == '/'
  {
    match FirstOf(url, m, SEGMENT_STOPS)
    case None => None
    case Some(p) => if url[p] == '/' && (!nonEmpty || p > m) then Some(p + 1) else None
  }

  /** A host written with regex dots, then a package name and `@`. */
  predicate HostThenName(url: string, m: nat, host: string) {
    WildAt(url, m, host) && NameAt(url, m + |host|)
  }

  /** The path of a raw-file url: `[^\/\"\']+\/[^\/\"\']+\/`, then `mid`,
      then `(?!master)[^\/\"\']+\/`. */
  predicate RawPath(url: string, m: nat, mid: string) {
    match SegmentEnd(url, m, true)
    case None => false
    case Some(a) =>
      match SegmentEnd(url, a, true)
      case None => false
      case Some(b) =>
        && OccursAt(url, mid, b)
        && !OccursAt(url, "master", b + |mid|)
        && SegmentEnd(url, b + |mid|, true).Some?
  }

  /** The pattern of `kind` matches `url` starting at `k`. Every pattern ends
      in `[^\'\"]*`, which also matches the empty text, so only what comes
      before it decides. */
  predicate MatchesAt(kind: RegistryKind, url: string, k: nat) {
    match SchemeEnd(url, k)
    case None => false
    case Some(m) =>
      match kind
      case DenoStd => WildAt(url, m, "deno.land/std@")
      case DenoLand => HostThenName(url, m, "deno.land/x/")
      case Unpkg => HostThenName(url, m, "unpkg.com/")
      case Jspm => HostThenName(url, m, "dev.jspm.io/")
      case Denopkg =>
        && WildAt(url, m, "denopkg.com/")
        && (match SegmentEnd(url, m + 12, false)
            case None => false
            case Some(q) => NameAt(url, q))
      case Pika =>
        && WildAt(url, m, "cdn.pika.dev")
        && ((OccursAt(url, "/_/", m + 12) && NameAt(url, m + 15))
            || (OccursAt(url, "/", m + 12) && NameAt(url, m + 13)))
      case GithubRaw =>
        OccursAt(url, "raw.githubusercontent.com/", m) && RawPath(url, m + 26, "")
      case GitlabRaw =>
        OccursAt(url, "gitlab.com/", m) && RawPath(url, m + 11, "-/raw/")
  }

  /** The positions at which the pattern of `kind` matches. */
  function MatchesIn(kind: RegistryKind, url: string): nat -> bool {
    (k: nat) => MatchesAt(kind, url, k)
  }

  /** `regexp.test(url)`: the pattern, unanchored, is tried at each position
      in turn. */
  predicate Test(kind: RegistryKind, url: string) {
    AnyFrom(MatchesIn(kind, url), 0, |url|)
  }

  /** The test succeeds exactly when the pattern matches at some position. */
  lemma TestSomewhere(kind: RegistryKind, url: string)
    ensures Test(kind, url) <==> exists k :: 0 <= k <= |url| && MatchesAt(kind, url, k)
  {
    var p := MatchesIn(kind, url);
    AnyFromExists(p, 0, |url|);
    if Test(kind, url) {
      var k :| 0 <= k <= |url| && p(k);
      assert MatchesAt(kind, url, k);
    } else {
      forall k | 0 <= k <= |url|
        ensures !MatchesAt(kind, url, k)
      {
        assert !p(k);
      }
    }
  }

  /** The patterns other than the raw-file ones all require an `@`. */
  lemma MatchHasAt(kind: RegistryKind, url: string, k: nat)
    requires kind !in {GithubRaw, GitlabRaw} && MatchesAt(kind, url, k)
    ensures '@' in url
  {
    var m := SchemeEnd(url, k).value;
    if kind == DenoStd {
      StdHasAt(url, m);
    } else if kind == DenoLand {
      NameHasAt(url, m + 12);
    } else if kind == Unpkg {
      NameHasAt(url, m + 10);
    } else if kind == Jspm {
      NameHasAt(url, m + 12);
    } else if kind == Denopkg {
      NameHasAt(url, SegmentEnd(url, m + 12, false).value);
    } else {
      PikaHasAt(url, m);
    }
  }

  lemma StdHasAt(url: string, m: nat)
    requires WildAt(url, m, "deno.land/std@")
    ensures '@' in url
  {
    assert url[m + 13] == "deno.land/std@"[13];
  }

  lemma PikaHasAt(url: string, m: nat)
    requires (OccursAt(url, "/_/", m + 12) && NameAt(url, m + 15)) || NameAt(url, m + 13)
    ensures '@' in url
  {
    if NameAt(url, m + 15) {
      NameHasAt(url, m + 15);
    } else {
      NameHasAt(url, m + 13);
    }
  }

  lemma NameHasAt(url: string, m: nat)
    requires NameAt(url, m)
    ensures '@' in url
  {
    assert url[FirstOf(url, m, SEGMENT_STOPS + {'@'}).value] == '@';
  }

  // ---------------------------------------------------------------------------
  // Dispatch

  /** The test `lookup` puts each kind to. */
  function Tests(url: string): RegistryKind -> bool {
    kind => Test(kind, url)
  }

  /** `lookup(url, registries)`: the first kind, in list order, whose
      pattern matches `url`, wrapping `url`. */
  function Lookup(url: string, registries: seq<RegistryKind>): (r: Option<RegistryUrl>)
    ensures r.None? <==> forall i :: 0 <= i < |registries| ==> !Test(registries[i], url)
    ensures r.Some? ==> && r.value.url == url && Test(r.value.kind, url)
                        && exists i :: FirstAt(registries, Tests(url), i) && registries[i] == r.value.kind
  {
    match Find(registries, Tests(url))
    case None => None
    case Some(kind) => Some(RegistryUrl(kind, url))
  }

  /** A kind that matches and is preceded by none that matches is the one
      `lookup` picks. */
  lemma LookupFirst(url: string, registries: seq<RegistryKind>, i: nat)
    requires i < |registries| && Test(registries[i], url)
    requires forall j :: 0 <= j < i ==> !Test(registries[j], url)
    ensures Lookup(url, registries) == Some(RegistryUrl(registries[i], url))
  {
    FindIndexIs(registries, Tests(url), i);
  }

  // ---------------------------------------------------------------------------
  // Reading and rewriting the version: the `@` adapters

  /** The line terminators, which the regex dot does not match. */
  const LINE_BREAKS: set<char> := {'\n', '\r', '\U{2028}', '\U{2029}'}

  /** `/@(.*?)(\/|$)/` tried at each `@` from `k`: the first `@` whose
      following text reaches a `/` or the end of the url before any line
      terminator, and where that text ends. */
  function AtMatch(url: string, k: nat): (r: Option<(nat, nat)>)
    ensures r.Some? ==> && k <= r.value.0 < r.value.1 <= |url| && url[r.value.0] == '@'
                        && (r.value.1 == |url| || url[r.value.1] == '/')
    decreases |url| - k
  {
    match FirstOf(url, k, {'@'})
    case None => None
    case Some(i) =>
      match FirstOf(url, i + 1, LINE_BREAKS + {'/'})
      case None => Some((i, |url|))
      case Some(j) => if url[j] == '/' then Some((i, j)) else AtMatch(url, i + 1)
  }

  /** `defaultAt(that, version)`: the text from the matched `@` up to and
      including the `/` after it (or up to the end) becomes `@version/`; a
      url without a match is returned unchanged. */
  function DefaultAt(url: string, version: string): (r: string)
    ensures AtMatch(url, 0).None? ==> r == url
  {
    match AtMatch(url, 0)
    case None => url
    case Some((i, j)) =>
      url[..i] + "@" + version + "/" + (if j < |url| then url[j + 1..] else "")
  }

  /** The first `@` from `k` followed by a character other than `/`: where
      `/\@([^\/]+)[\/$]?/` matches. */
  function VersionAt(url: string, k: nat): (r: Option<nat>)
    ensures r.None? <==> forall i :: k <= i < |url| - 1 && url[i] == '@' ==> url[i + 1] == '/'
    ensures r.Some? ==> && k <= r.value < |url| - 1 && url[r.value] == '@' && url[r.value + 1] != '/'
                        && forall i :: k <= i < r.value && url[i] == '@' ==> url[i + 1] == '/'
    decreases |url| - k
  {
    match FirstOf(url, k, {'@'})
    case None => None
    case Some(i) =>
      if i + 1 < |url| && url[i + 1] != '/' then Some(i) else VersionAt(url, i + 1)
  }

  /** The longest run without `/` from `m`: where it ends. */
  function RunEnd(url: string, m: nat): (e: nat)
    requires m <= |url|
    ensures m <= e <= |url| && '/' !in url[m..e] && (e == |url| || url[e] == '/')
  {
    match FirstOf(url, m, {'/'})
    case None => |url|
    case Some(j) => j
  }

  /** `defaultVersion(that)`: the longest run without `/` after the first `@`
      that is not followed by `/`. */
  function DefaultVersion(url: string): (r: Result<string>)
    ensures r.Failure? <==> forall i :: 0 <= i < |url| - 1 && url[i] == '@' ==> url[i + 1] == '/'
    ensures r.Failure? ==> r.error == "Unable to find version in " + url
    ensures r.Success? ==> r.value != "" && '/' !in r.value
  {
    match VersionAt(url, 0)
    case None => Failure("Unable to find version in " + url)
    case Some(i) => Success(url[i + 1..RunEnd(url, i + 1)])
  }

  /** Where the name before the `@` at `a` starts: just after the last `/`,
      `"` or `'` before it. */
  function NameStart(url: string, a: nat): (p: nat)
    requires a <= |url|
    ensures p <= a && (p == 0 || url[p - 1] in SEGMENT_STOPS)
    ensures forall i :: p <= i < a ==> url[i] !in SEGMENT_STOPS
  {
    if a == 0 || url[a - 1] in SEGMENT_STOPS then a else NameStart(url, a - 1)
  }

  /** `defaultName(that)`: the text between the first `@` and the last `/`,
      `"` or `'` before it. */
  function DefaultName(url: string): (r: Result<string>)
    ensures r.Failure? <==> '@' !in url
    ensures r.Failure? ==> r.error == "Package name not found in " + url
    ensures r.Success? ==> '@' !in r.value && forall c :: c in SEGMENT_STOPS ==> c !in r.value
  {
    match FirstOf(url, 0, {'@'})
    case None =>
      assert forall i :: 0 <= i < |url| ==> url[i] != '@';
      Failure("Package name not found in " + url)
    case Some(a) => Success(url[NameStart(url, a)..a])
  }

  /** The layout of a url whose first `@` starts the version `w`, followed by
      a `/` and the rest. */
  lemma Layout(p: string, w: string, rest: string)
    ensures var u := p + "@" + w + "/" + rest;
            && |u| == |p| + |w| + 2 + |rest|
            && u[..|p|] == p && u[|p|] == '@'
            && u[|p| + 1..|p| + 1 + |w|] == w && u[|p| + 1 + |w|] == '/'
            && u[|p| + |w| + 2..] == rest
  {
    var u := p + "@" + w + "/" + rest;
    assert u == p + ("@" + w + "/" + rest);
    assert u[|p|..] == "@" + w + "/" + rest;
  }

  /** In `p@w/…`, the first `@` is the one after `p`. */
  lemma FirstAtSign(p: string, w: string, rest: string)
    requires '@' !in p
    ensures FirstOf(p + "@" + w + "/" + rest, 0, {'@'}) == Some(|p|)
  {
    var u := p + "@" + w + "/" + rest;
    Layout(p, w, rest);
    forall i | 0 <= i < |p|
      ensures u[i] !in {'@'}
    {
      assert u[i] == u[..|p|][i];
    }
    FirstOfIs(u, 0, {'@'}, |p|);
  }

  /** In `p@w/…` with `w` free of `/`, the first `/` after the `@` closes `w`. */
  lemma SlashAfter(p: string, w: string, rest: string, stops: set<char>)
    requires '/' in stops && forall c :: c in stops ==> c !in w
    ensures FirstOf(p + "@" + w + "/" + rest, |p| + 1, stops) == Some(|p| + 1 + |w|)
  {
    var u := p + "@" + w + "/" + rest;
    Layout(p, w, rest);
    forall i | |p| + 1 <= i < |p| + 1 + |w|
      ensures u[i] !in stops
    {
      assert u[i] == w[i - |p| - 1];
    }
    FirstOfIs(u, |p| + 1, stops, |p| + 1 + |w|);
  }

  /** `at` on `p@w/rest`: only `w` is replaced, whatever it was. */
  lemma AtOfLayout(p: string, w: string, rest: string, v: string)
    requires '@' !in p && '/' !in w && NoLineTerminator(w)
    ensures DefaultAt(p + "@" + w + "/" + rest, v) == p + "@" + v + "/" + rest
  {
    var u := p + "@" + w + "/" + rest;
    Layout(p, w, rest);
    FirstAtSign(p, w, rest);
    SlashAfter(p, w, rest, LINE_BREAKS + {'/'});
    assert AtMatch(u, 0) == Some((|p|, |p| + 1 + |w|));
  }

  /** `at` on `p@w`, with nothing after the version: `/` is appended. */
  lemma AtOfLayoutAtEnd(p: string, w: string, v: string)
    requires '@' !in p && '/' !in w && NoLineTerminator(w)
    ensures DefaultAt(p + "@" + w, v) == p + "@" + v + "/"
  {
    var u := p + "@" + w;
    assert u[..|p|] == p && u[|p|] == '@';
    forall i | 0 <= i < |p|
      ensures u[i] !in {'@'}
    {
      assert u[i] == p[i];
    }
    FirstOfIs(u, 0, {'@'}, |p|);
    forall i | |p| + 1 <= i < |u|
      ensures u[i] !in LINE_BREAKS + {'/'}
    {
      assert u[i] == w[i - |p| - 1];
    }
    assert FirstOf(u, |p| + 1, LINE_BREAKS + {'/'}) == None;
  }

  /** `version` on `p@w/rest` reads `w`. */
  lemma VersionOfLayout(p: string, w: string, rest: string)
    requires '@' !in p && w != "" && '/' !in w
    ensures DefaultVersion(p + "@" + w + "/" + rest) == Success(w)
  {
    var u := p + "@" + w + "/" + rest;
    Layout(p, w, rest);
    FirstAtSign(p, w, rest);
    assert u[|p| + 1] == w[0];
    assert VersionAt(u, 0) == Some(|p|);
    SlashAfter(p, w, rest, {'/'});
  }

  /** The round trip: the version of `at(v)` is `v`, for any non-empty `v`
      without `/`, on a url whose first `@` starts a version free of line
      terminators. */
  lemma DefaultRoundTrip(p: string, w: string, rest: string, v: string)
    requires '@' !in p && '/' !in w && NoLineTerminator(w)
    requires v != "" && '/' !in v
    ensures DefaultVersion(DefaultAt(p + "@" + w + "/" + rest, v)) == Success(v)
  {
    AtOfLayout(p, w, rest, v);
    VersionOfLayout(p, v, rest);
  }

  /** The same round trip when the version ends the url. */
  lemma DefaultRoundTripAtEnd(p: string, w: string, v: string)
    requires '@' !in p && '/' !in w && NoLineTerminator(w)
    requires v != "" && '/' !in v
    ensures DefaultVersion(DefaultAt(p + "@" + w, v)) == Success(v)
  {
    AtOfLayoutAtEnd(p, w, v);
    VersionOfLayout(p, v, "");
    assert p + "@" + v + "/" + "" == p + "@" + v + "/";
  }

  /** `at` with the current version rebuilds the url when a `/` follows the
      version, and appends `/` when the version ends the url. */
  lemma AtCurrentVersion(p: string, w: string, rest: string)
    requires '@' !in p && w != "" && '/' !in w && NoLineTerminator(w)
    ensures DefaultVersion(p + "@" + w + "/" + rest) == Success(w)
    ensures DefaultAt(p + "@" + w + "/" + rest, w) == p + "@" + w + "/" + rest
    ensures DefaultVersion(p + "@" + w) == Success(w)
    ensures DefaultAt(p + "@" + w, w) == p + "@" + w + "/"
  {
    VersionOfLayout(p, w, rest);
    AtOfLayout(p, w, rest, w);
    VersionOfLayout(p, w, "");
    assert p + "@" + w + "/" + "" == p + "@" + w + "/";
    VersionAtEnd(p, w);
    AtOfLayoutAtEnd(p, w, w);
  }

  lemma VersionAtEnd(p: string, w: string)
    requires '@' !in p && w != "" && '/' !in w
    ensures DefaultVersion(p + "@" + w) == Success(w)
  {
    var u := p + "@" + w;
    assert u[..|p|] == p && u[|p|] == '@' && u[|p| + 1] == w[0];
    forall i | 0 <= i < |p|
      ensures u[i] !in {'@'}
    {
      assert u[i] == p[i];
    }
    FirstOfIs(u, 0, {'@'}, |p|);
    assert VersionAt(u, 0) == Some(|p|);
    forall i | |p| + 1 <= i < |u|
      ensures u[i] != '/'
    {
      assert u[i] == w[i - |p| - 1];
    }
    assert RunEnd(u, |p| + 1) == |u|;
    assert u[|p| + 1..|u|] == w;
  }

  /** `name` on `q n@…`, where `q` is empty or ends in `/`, `"` or `'`. */
  lemma NameOfLayout(q: string, n: string, rest: string)
    requires '@' !in q && '@' !in n && forall c :: c in SEGMENT_STOPS ==> c !in n
    requires q == "" || q[|q| - 1] in SEGMENT_STOPS
    ensures DefaultName(q + n + "@" + rest) == Success(n)
  {
    var u := q + n + "@" + rest;
    var a := |q| + |n|;
    assert u[..a] == q + n && u[a] == '@';
    forall i | 0 <= i < a
      ensures u[i] !in {'@'}
    {
      assert u[i] == (q + n)[i];
    }
    FirstOfIs(u, 0, {'@'}, a);
    NameStartIs(u, |q|, a);
    assert u[|q|..a] == n;
  }

  lemma {:induction false} NameStartIs(u: string, p: nat, a: nat)
    requires p <= a <= |u| && (p == 0 || u[p - 1] in SEGMENT_STOPS)
    requires forall i :: p <= i < a ==> u[i] !in SEGMENT_STOPS
    ensures NameStart(u, a) == p
    decreases a
  {
    if a > p {
      NameStartIs(u, p, a - 1);
    }
  }

  /** Every url a non-raw kind accepts has a package name. */
  lemma MatchedHasName(kind: RegistryKind, url: string)
    requires kind !in {GithubRaw, GitlabRaw} && Test(kind, url)
    ensures DefaultName(url).Success?
  {
    TestSomewhere(kind, url);
    var k :| 0 <= k <= |url| && MatchesAt(kind, url, k);
    MatchHasAt(kind, url, k);
  }

  // ---------------------------------------------------------------------------
  // Reading and rewriting the version: the raw-file adapters

  /** `parts[n] = v` on a JavaScript array: past the end the array grows, and
      the holes it leaves join as empty text. */
  function SetSegment(parts: seq<string>, n: nat, v: string): (r: seq<string>)
    ensures |r| == if n < |parts| then |parts| else n + 1
    ensures r[n] == v
    ensures forall i :: 0 <= i < |r| && i != n ==> r[i] == (if i < |parts| then parts[i] else "")
  {
    if n < |parts| then parts[n := v] else parts + seq(n - |parts|, _ => "") + [v]
  }

  /** `GithubRaw.at` (and `GitlabRaw.at`): `/`-segment 5 becomes `v`. */
  function RawAt(url: string, v: string): string {
    Join(SetSegment(Split(url, "/"), 5, v), "/")
  }

  /** `/`-segment `n`, which the raw adapters' `version` reads, or the error
      thrown when the url has fewer segments. */
  function RawSegment(url: string, n: nat): (r: Result<string>)
    ensures r.Failure? <==> |Split(url, "/")| <= n
    ensures r.Failure? ==> r.error == "Unable to find version in " + url
    ensures r.Success? ==> '/' !in r.value
  {
    var parts := Split(url, "/");
    SplitPartsNoChar(url, '/');
    if n < |parts| then Success(parts[n]) else Failure("Unable to find version in " + url)
  }

  /** `at` rewrites only segment 5: the segments of the new url are the old
      ones with segment 5 set to `v`. */
  lemma RawAtSegments(url: string, v: string)
    requires '/' !in v
    ensures Split(RawAt(url, v), "/") == SetSegment(Split(url, "/"), 5, v)
  {
    var parts := SetSegment(Split(url, "/"), 5, v);
    SplitPartsNoChar(url, '/');
    assert forall k :: 0 <= k < |parts| ==> '/' !in parts[k];
    SplitJoinChar(parts, '/');
  }

  /** `r.at(version)`, on each kind. `GitlabRaw.at` returns a `GithubRaw`. */
  function At(r: RegistryUrl, version: string): (s: RegistryUrl)
    ensures s.kind == if r.kind == GitlabRaw then GithubRaw else r.kind
    ensures s.url == if r.kind in {GithubRaw, GitlabRaw} then RawAt(r.url, version)
                     else DefaultAt(r.url, version)
  {
    match r.kind
    case GithubRaw => RegistryUrl(GithubRaw, RawAt(r.url, version))
    case GitlabRaw => RegistryUrl(GithubRaw, RawAt(r.url, version))
    case _ => RegistryUrl(r.kind, DefaultAt(r.url, version))
  }

  /** `r.version()`, on each kind. `GitlabRaw.version` reads segment 7. */
  function Version(r: RegistryUrl): (v: Result<string>)
    ensures v.Failure? ==> v.error == "Unable to find version in " + r.url
  {
    match r.kind
    case GithubRaw => RawSegment(r.url, 5)
    case GitlabRaw => RawSegment(r.url, 7)
    case _ => DefaultVersion(r.url)
  }

  /** `name()` (`repo()` for Denopkg), on the kinds that have one. */
  function Name(r: RegistryUrl): (n: Result<string>)
    requires r.kind in {DenoLand, Unpkg, Denopkg, Jspm, Pika}
    ensures n.Failure? <==> '@' !in r.url
    ensures n == DefaultName(r.url)
  {
    DefaultName(r.url)
  }

  /** The GitHub raw round trip: `version(at(v)) == v` for `v` without `/`. */
  lemma GithubRawRoundTrip(url: string, v: string)
    requires '/' !in v
    ensures Version(At(RegistryUrl(GithubRaw, url), v)) == Success(v)
  {
    RawAtSegments(url, v);
  }

  /** No GitLab round trip: `at` hands back a GithubRaw whose segment 5 is
      `v`, while read as a GitLab url it still has its old segment 7. */
  lemma GitlabRawNoRoundTrip(url: string, v: string)
    requires '/' !in v && |Split(url, "/")| > 7
    ensures var s := At(RegistryUrl(GitlabRaw, url), v);
            && s.kind == GithubRaw
            && Version(s) == Success(v)
            && Version(RegistryUrl(GitlabRaw, s.url)) == Success(Split(url, "/")[7])
  {
    RawAtSegments(url, v);
  }

  // ---------------------------------------------------------------------------
  // Release lists

  /** `DenoStd.all`'s transform of the deno repository's tags: the tags that
      start with `std/`, in order, each as `v` and its second `/`-segment. */
  function StdTags(tags: seq<string>): (r: seq<string>)
    ensures |r| <= |tags|
    decreases |tags|
  {
    if tags == [] then []
    else
      var rest := StdTags(tags[..|tags| - 1]);
      var t := tags[|tags| - 1];
      if StartsWith(t, "std/") then rest + ["v" + StdSegment(t)] else rest
  }

  /** `x.split("/")[1]` for a tag `x` that starts with `std/`. */
  function StdSegment(t: string): (r: string)
    requires StartsWith(t, "std/")
    ensures '/' !in r
  {
    StdSplit(t);
    SplitPartsNoChar(t, '/');
    Split(t, "/")[1]
  }

  lemma StdSplit(t: string)
    requires StartsWith(t, "std/")
    ensures Split(t, "/") == ["std"] + Split(t[4..], "/")
  {
    CharAbsent("std", '/');
    PrefixAndRest(t, "std/");
    assert t == "std" + "/" + t[4..];
    SplitAfter("std", "/", t[4..]);
  }

  /** The transform works tag by tag, keeping the order. */
  lemma {:induction false} StdTagsAppend(a: seq<string>, b: seq<string>)
    ensures StdTags(a + b) == StdTags(a) + StdTags(b)
    decreases |b|
  {
    if b == [] {
      assert a + b == a;
    } else {
      var b' := b[..|b| - 1];
      assert (a + b)[..|a + b| - 1] == a + b';
      StdTagsAppend(a, b');
    }
  }

  /** A release tag `std/X` gives `vX`; any other tag is dropped. */
  lemma StdTagsOne(t: string)
    ensures !StartsWith(t, "std/") ==> StdTags([t]) == []
    ensures StartsWith(t, "std/") ==> StdTags([t]) == ["v" + Split(t[4..], "/")[0]]
    ensures forall x :: t == "std/" + x && '/' !in x ==> StdTags([t]) == ["v" + x]
  {
    assert [t][..0] == [];
    if StartsWith(t, "std/") {
      StdSplit(t);
    }
    forall x | t == "std/" + x && '/' !in x
      ensures StdTags([t]) == ["v" + x]
    {
      assert t[..4] == "std/" && t[4..] == x;
      StdSplit(t);
      SplitNoChar(x, '/');
    }
  }

  // ---------------------------------------------------------------------------
  // Where each kind's releases come from (`all()`)

  /** The listing `all()` reads: a repository's tags on GitHub or GitLab, the
      version picker of unpkg's browse page for a package, or the deno.land
      database entry for a module name. */
  datatype Origin =
    | GithubTags(owner: string, repo: string)
    | GitlabTags(owner: string, repo: string)
    | UnpkgBrowse(name: string)
    | DenoLandDatabase(name: string)

  /** `url.split("/")[n]` as a template inserts it: `undefined` past the end. */
  function SegmentOr(url: string, n: nat): (s: string)
    ensures n < |Split(url, "/")| ==> s == Split(url, "/")[n]
    ensures n >= |Split(url, "/")| ==> s == "undefined"
  {
    var parts := Split(url, "/");
    if n < |parts| then parts[n] else "undefined"
  }

  /** The listing each kind's `all()` asks for. The kinds whose source is
      named after the package fail as `name()` does. */
  function OriginOf(r: RegistryUrl): (o: Result<Origin>)
    ensures o.Failure? <==> r.kind in {DenoLand, Unpkg, Denopkg, Jspm, Pika} && '@' !in r.url
    ensures o.Failure? ==> o == Failure("Package name not found in " + r.url)
    ensures r.kind == DenoStd ==> o == Success(GithubTags("denoland", "deno"))
    ensures r.kind in {Unpkg, Jspm, Pika} && o.Success? ==> o.value.UnpkgBrowse?
    ensures r.kind in {Denopkg, GithubRaw} ==> o.Success? ==> o.value.GithubTags?
    ensures r.kind == DenoLand && o.Success? ==> o.value == DenoLandDatabase(Name(r).value)
    ensures r.kind in {Unpkg, Jspm, Pika} && o.Success? ==> o.value == UnpkgBrowse(Name(r).value)
    ensures r.kind == Denopkg && o.Success? ==> o.value == GithubTags(SegmentOr(r.url, 3), Name(r).value)
    ensures r.kind == GithubRaw ==> o == Success(GithubTags(SegmentOr(r.url, 3), SegmentOr(r.url, 4)))
    ensures r.kind == GitlabRaw ==> o == Success(GitlabTags(SegmentOr(r.url, 3), SegmentOr(r.url, 4)))
  {
    match r.kind
    case DenoStd => Success(GithubTags("denoland", "deno"))
    case DenoLand =>
      var n :- DefaultName(r.url);
      Success(DenoLandDatabase(n))
    case Unpkg =>
      var n :- DefaultName(r.url);
      Success(UnpkgBrowse(n))
    case Jspm =>
      var n :- DefaultName(r.url);
      Success(UnpkgBrowse(n))
    case Pika =>
      var n :- DefaultName(r.url);
      Success(UnpkgBrowse(n))
    case Denopkg =>
      var n :- DefaultName(r.url);
      Success(GithubTags(SegmentOr(r.url, 3), n))
    case GithubRaw => Success(GithubTags(SegmentOr(r.url, 3), SegmentOr(r.url, 4)))
    case GitlabRaw => Success(GitlabTags(SegmentOr(r.url, 3), SegmentOr(r.url, 4)))
  }

  /** Every url a kind's pattern accepts has a listing to read. */
  lemma OriginOfMatched(r: RegistryUrl)
    requires Test(r.kind, r.url)
    ensures OriginOf(r).Success?
  {
    if r.kind !in {GithubRaw, GitlabRaw} {
      MatchedHasName(r.kind, r.url);
    }
  }

  /** An entry of the deno.land database. */
  datatype DbEntry = DbEntry(kind: string, owner: string, repo: string)

  /** `DenoLand.all`'s use of the database: the entry for the module must be
      there (destructuring a missing one throws) and hosted on GitHub. */
  function DenoLandRepo(name: string, db: map<string, DbEntry>): (r: Result<Origin>)
    ensures r.Success? <==> name in db && db[name].kind == "github"
    ensures r.Success? ==> r.value == GithubTags(db[name].owner, db[name].repo)
    ensures name in db && db[name].kind != "github" ==>
              r.error == name + " has unsupported type " + db[name].kind
  {
    if name !in db then Failure("Cannot destructure the missing entry of " + name)
    else if db[name].kind != "github" then Failure(name + " has unsupported type " + db[name].kind)
    else Success(GithubTags(db[name].owner, db[name].repo))
  }

  /** The cache key of a GitHub repository's tags. */
  function GithubKey(owner: string, repo: string): string {
    "github:" + owner + "/" + repo
  }

  /** The cache key of a GitLab repository's tags. */
  function GitlabKey(owner: string, repo: string): string {
    "gitlab:" + owner + "/" + repo
  }

  /** The two hosts never share a cache entry. */
  lemma KeysDiffer(o1: string, r1: string, o2: string, r2: string)
    ensures GithubKey(o1, r1) != GitlabKey(o2, r2)
  {
    assert GithubKey(o1, r1)[3] == 'h';
    assert GitlabKey(o2, r2)[3] == 'l';
  }

  /** Repositories named by `/`-free segments have distinct keys. */
  lemma GithubKeyInjective(o1: string, r1: string, o2: string, r2: string)
    requires '/' !in o1 && '/' !in o2
    requires GithubKey(o1, r1) == GithubKey(o2, r2)
    ensures o1 == o2 && r1 == r2
  {
    var k := GithubKey(o1, r1);
    assert k == "github:" + (o1 + "/" + r1);
    assert k == "github:" + (o2 + "/" + r2);
    assert k[7..] == o1 + "/" + r1 == o2 + "/" + r2;
    SlashSplits(o1, r1, o2, r2);
  }

  lemma SlashSplits(o1: string, r1: string, o2: string, r2: string)
    requires '/' !in o1 && '/' !in o2
    requires o1 + "/" + r1 == o2 + "/" + r2
    ensures o1 == o2 && r1 == r2
  {
    var k := o1 + "/" + r1;
    SlashAfterPrefix(o1, r1);
    SlashAfterPrefix(o2, r2);
    assert o1 == k[..|o1|] == o2;
    assert r1 == k[|o1| + 1..] == r2;
  }

  /** The first `/` of `x/r`, for `x` without one, follows `x`. */
  lemma SlashAfterPrefix(x: string, r: string)
    requires '/' !in x
    ensures FirstOf(x + "/" + r, 0, {'/'}) == Some(|x|)
  {
    var k := x + "/" + r;
    forall i | 0 <= i < |x|
      ensures k[i] !in {'/'}
    {
      assert k[i] == x[i];
    }
    FirstOfIs(k, 0, {'/'}, |x|);
  }

  /** `fetchReleases(url, cacheKey, cache)`. A cached key returns its list
      untouched. Otherwise the tag names of the first page and of every page
      the `next` links lead to are gathered, in order, and stored under the
      key. `pages` are those pages as the chain of requests returns them. */
  method FetchReleases(cache: Cache.ReleaseCache, key: string, pages: seq<seq<string>>)
    returns (versions: seq<string>)
    requires |pages| >= 1
    modifies cache
    ensures key in old(cache.entries) ==>
              versions == old(cache.entries)[key] && cache.entries == old(cache.entries)
    ensures key !in old(cache.entries) ==>
              versions == Concat(pages) && cache.entries == old(cache.entries)[key := versions]
    ensures key in cache.entries && cache.entries[key] == versions
  {
    var hit := cache.Get(key);
    if hit.Some? {
      return hit.value;
    }
    versions := pages[0];
    assert pages[..1][..0] == [];
    var n := 1;
    while n < |pages|
      invariant 1 <= n <= |pages|
      invariant versions == Concat(pages[..n])
    {
      assert pages[..n + 1][..n] == pages[..n];
      versions := versions + pages[n];
      n := n + 1;
    }
    assert pages[..n] == pages;
    cache.Set(key, versions);
  }

  /** `githubReleases(owner, repo, cache)`. */
  method GithubReleases(cache: Cache.ReleaseCache, owner: string, repo: string, pages: seq<seq<string>>)
    returns (versions: seq<string>)
    requires |pages| >= 1
    modifies cache
    ensures var key := GithubKey(owner, repo);
            && (key in old(cache.entries) ==>
                  versions == old(cache.entries)[key] && cache.entries == old(cache.entries))
            && (key !in old(cache.entries) ==>
                  versions == Concat(pages) && cache.entries == old(cache.entries)[key := versions])
  {
    versions := FetchReleases(cache, GithubKey(owner, repo), pages);
  }

  /** `gitlabReleases(owner, repo, cache)`. */
  method GitlabReleases(cache: Cache.ReleaseCache, owner: string, repo: string, pages: seq<seq<string>>)
    returns (versions: seq<string>)
    requires |pages| >= 1
    modifies cache
    ensures var key := GitlabKey(owner, repo);
            && (key in old(cache.entries) ==>
                  versions == old(cache.entries)[key] && cache.entries == old(cache.entries))
            && (key !in old(cache.entries) ==>
                  versions == Concat(pages) && cache.entries == old(cache.entries)[key := versions])
  {
    versions := FetchReleases(cache, GitlabKey(owner, repo), pages);
  }

  /** `unpkgVersions(name)` after the page is scraped: the `value` of each
      `<option>` in page order, reversed in place. */
  method UnpkgVersions(options: seq<string>) returns (versions: seq<string>)
    ensures versions == Reversed(options)
    ensures forall k :: 0 <= k < |options| ==> versions[k] == options[|options| - 1 - k]
  {
    var a := new string[|options|](i => if 0 <= i < |options| then options[i] else "");
    assert a[..] == options;
    ReverseInPlace(a);
    versions := a[..];
    forall k | 0 <= k < |options|
      ensures versions[k] == options[|options| - 1 - k]
    {
      ReversedIndex(options, k);
    }
  }

  // ---------------------------------------------------------------------------
  // The registry tests, as lemmas

  /** `https://` and a host at the start: its regex dots match its own dots. */
  lemma HostAtStart(host: string, rest: string)
    ensures var url := "https://" + host + rest;
            SchemeEnd(url, 0) == Some(8) && WildAt(url, 8, host)
  {
    var url := "https://" + host + rest;
    assert url[..8] == "https://";
    forall i | 0 <= i < |host|
      ensures url[8 + i] == host[i]
    {
    }
  }

  /** Every `https://deno.land/std@…` url passes the DenoStd test. */
  lemma DenoStdTest(rest: string)
    ensures Test(DenoStd, "https://deno.land/std@" + rest)
  {
    var url := "https://deno.land/std@" + rest;
    assert url == "https://" + "deno.land/std@" + rest;
    HostAtStart("deno.land/std@", rest);
    assert MatchesAt(DenoStd, url, 0);
    assert MatchesIn(DenoStd, url)(0);
  }

  /** Every `https://deno.land/std@…` url is a DenoStd url (the first kind
      tried), as `registryDenolandStd` checks. */
  lemma DenoStdLookup(rest: string)
    ensures var url := "https://deno.land/std@" + rest;
            Lookup(url, REGISTRIES) == Some(RegistryUrl(DenoStd, url))
  {
    DenoStdTest(rest);
    LookupFirst("https://deno.land/std@" + rest, REGISTRIES, 0);
  }

  /** `https://deno.land/x/NAME@…` passes the DenoLand test, as
      `registryDenolandX` checks. */
  lemma DenoLandTest(name: string, rest: string)
    requires '@' !in name && forall c :: c in SEGMENT_STOPS ==> c !in name
    ensures Test(DenoLand, "https://deno.land/x/" + name + "@" + rest)
  {
    var url := "https://deno.land/x/" + name + "@" + rest;
    assert url == "https://" + "deno.land/x/" + (name + "@" + rest);
    HostAtStart("deno.land/x/", name + "@" + rest);
    forall i | 20 <= i < 20 + |name|
      ensures url[i] !in SEGMENT_STOPS + {'@'}
    {
      assert url[i] == name[i - 20];
    }
    assert url[20 + |name|] == '@';
    FirstOfIs(url, 20, SEGMENT_STOPS + {'@'}, 20 + |name|);
    assert MatchesAt(DenoLand, url, 0);
    assert MatchesIn(DenoLand, url)(0);
  }
}
