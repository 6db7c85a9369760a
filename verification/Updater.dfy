/** update.ts: the older `Update` object. It refuses to start when the
    validator already fails, then, for each import url that `versioned`
    recognises, moves it to the newest listed version unless it is already
    there, keeping the change only when the validator still passes. */
module Updater {
  import opened Wrappers
  import opened Text
  import opened Registry
  import Versioned

  /** What the process reports when the validator fails before any change;
      the process then exits. */
  const PREFLIGHT_ERROR: string := "Tests failed prior to update"

  /** `versions[0]` as `updateOne` uses it: on an empty list it is
      `undefined`, which the template in `at` spells out. */
  function Newest(versions: seq<string>): (v: string)
    ensures versions != [] ==> v == versions[0]
    ensures versions == [] ==> v == "undefined"
  {
    if versions == [] then "undefined" else versions[0]
  }

  /** `updateOne(url)` on a file holding `content`, with `versions` the
      release list and `fails` the validator (true means the tests failed):
      the new file text, or the error `current()` throws. */
  function OneSpec(content: string, r: RegistryUrl, versions: seq<string>,
                   fails: string -> bool): (o: Result<string>)
    ensures o.Failure? <==> Versioned.Current(r.url).Failure?
    ensures o.Failure? ==> o.error == "Unable to find version in " + r.url
    ensures o.Success? && Versioned.Current(r.url).value == Newest(versions) ==> o.value == content
    ensures o.Success? && Versioned.Current(r.url).value != Newest(versions) ==>
              var b := Versioned.At(r.url, Newest(versions));
              var u := ReplaceAll(content, r.url, b);
              o.value == if fails(u) then ReplaceAll(u, b, r.url) else u
  {
    var current :- Versioned.Current(r.url);
    var newVersion := Newest(versions);
    if current == newVersion then Success(content)
    else Success(Substitute(content, r.url, Versioned.At(r.url, newVersion), c => !fails(c)).0)
  }

  /** The state of `update` after some urls: the file, and the error that
      stopped it, if any. */
  datatype UpdateState = UpdateState(content: string, error: Option<string>)

  /** One iteration of `update`'s loop on the url `u`. */
  function Advance(s: UpdateState, u: string, releases: RegistryUrl -> seq<string>,
                   fails: string -> bool): (t: UpdateState)
    ensures s.error.Some? ==> t == s
    ensures Versioned.Versioned(u).None? ==> t == s
    ensures s.error.None? && Versioned.Versioned(u).Some? ==>
              var o := OneSpec(s.content, Versioned.Versioned(u).value, releases(Versioned.Versioned(u).value), fails);
              t == if o.Failure? then UpdateState(s.content, Some(o.error)) else UpdateState(o.value, None)
  {
    if s.error.Some? then s
    else
      match Versioned.Versioned(u)
      case None => s
      case Some(r) =>
        match OneSpec(s.content, r, releases(r), fails)
        case Failure(e) => UpdateState(s.content, Some(e))
        case Success(after) => UpdateState(after, None)
  }

  /** `update()` over the scanned `urls` on a file holding `content`. */
  function UpdateSpec(content: string, urls: seq<string>, releases: RegistryUrl -> seq<string>,
                      fails: string -> bool): (s: UpdateState)
    decreases |urls|
  {
    if urls == [] then UpdateState(content, None)
    else Advance(UpdateSpec(content, urls[..|urls| - 1], releases, fails),
                 urls[|urls| - 1], releases, fails)
  }

  lemma UpdateSpecStep(content: string, urls: seq<string>, n: nat,
                       releases: RegistryUrl -> seq<string>, fails: string -> bool)
    requires n < |urls|
    ensures UpdateSpec(content, urls[..n + 1], releases, fails)
            == Advance(UpdateSpec(content, urls[..n], releases, fails), urls[n], releases, fails)
  {
    assert urls[..n + 1][..n] == urls[..n];
  }

  /** Once an update has failed, the later urls change nothing. */
  lemma {:induction false} UpdateStopsAtError(content: string, urls: seq<string>, n: nat,
                                              releases: RegistryUrl -> seq<string>,
                                              fails: string -> bool)
    requires n <= |urls|
    requires UpdateSpec(content, urls[..n], releases, fails).error.Some?
    ensures UpdateSpec(content, urls, releases, fails) == UpdateSpec(content, urls[..n], releases, fails)
    decreases |urls| - n
  {
    if n < |urls| {
      UpdateSpecStep(content, urls, n, releases, fails);
      UpdateStopsAtError(content, urls, n + 1, releases, fails);
    } else {
      assert urls[..n] == urls;
    }
  }

  /** Urls no implementation recognises never touch the file. */
  lemma {:induction false} UnrecognisedUrlsSkipped(content: string, urls: seq<string>,
                                                   releases: RegistryUrl -> seq<string>,
                                                   fails: string -> bool)
    requires forall k :: 0 <= k < |urls| ==> Versioned.Versioned(urls[k]).None?
    ensures UpdateSpec(content, urls, releases, fails) == UpdateState(content, None)
    decreases |urls|
  {
    if urls != [] {
      UnrecognisedUrlsSkipped(content, urls[..|urls| - 1], releases, fails);
    }
  }

  /** `updateIfTestPasses`: when the new url is new to the file and has no
      border, a failing validator leaves the file as it was; otherwise every
      occurrence of the old url becomes the new one, and the text between
      occurrences is unchanged. */
  lemma OneCommitsOrRestores(content: string, r: RegistryUrl, versions: seq<string>,
                             fails: string -> bool)
    requires Versioned.Current(r.url).Success?
    requires Versioned.Current(r.url).value != Newest(versions)
    requires var b := Versioned.At(r.url, Newest(versions));
             |b| > 0 && Absent(content, b) && Unbordered(b)
    ensures var b := Versioned.At(r.url, Newest(versions));
            var after := OneSpec(content, r, versions, fails).value;
            && (fails(ReplaceAll(content, r.url, b)) ==> after == content)
            && (!fails(ReplaceAll(content, r.url, b)) ==>
                  after == Join(Split(content, r.url), b) && Join(Split(content, r.url), r.url) == content)
  {
    var b := Versioned.At(r.url, Newest(versions));
    SubstituteCommitsOrRestores(content, r.url, b, c => !fails(c));
    ReplaceAllKeepsParts(content, r.url, b);
  }

  /** An update to a url's own current version rewrites nothing: `at`
      rebuilds the same url. */
  lemma CurrentIsFixedPoint(content: string, url: string)
    requires Versioned.Current(url).Success?
    ensures ReplaceAll(content, url, Versioned.At(url, Versioned.Current(url).value)) == content
  {
    Versioned.AtCurrent(url);
    ReplaceAllSelf(content, url);
  }

  /** An updater bound to one file, whose text is `content`; `fails` is the
      validator, true when the tests fail. */
  class Update {
    var content: string
    const fails: string -> bool

    /** `new Update(filename, test)`. */
    constructor(file: string, test: string -> bool)
      ensures content == file && fails == test
    {
      content := file;
      fails := test;
    }

    /** `replace(url, newUrl)`: the whole file, with every `left` replaced
        by `right`. */
    method Replace(left: string, right: string)
      modifies this
      ensures content == ReplaceAll(old(content), left, right)
    {
      content := ReplaceAll(content, left, right);
    }

    /** `updateIfTestPasses(url, newVersion)`: substitute the new url, run
        the validator, and substitute back when it fails. */
    method UpdateIfTestPasses(r: RegistryUrl, newVersion: string) returns (reverted: bool)
      modifies this
      ensures var newUrl := Versioned.At(r.url, newVersion);
              (content, reverted) == Substitute(old(content), r.url, newUrl, c => !fails(c))
    {
      var newUrl := Versioned.At(r.url, newVersion);
      Replace(r.url, newUrl);
      reverted := fails(content);
      if reverted {
        Replace(newUrl, r.url);
      }
    }

    /** `updateOne(url)`, with `versions` the release list `url.all()`
        yields. */
    method UpdateOne(r: RegistryUrl, versions: seq<string>) returns (error: Option<string>)
      modifies this
      ensures var o := OneSpec(old(content), r, versions, fails);
              && (o.Failure? ==> error == Some(o.error) && content == old(content))
              && (o.Success? ==> error.None? && content == o.value)
    {
      var current := Versioned.Current(r.url);
      if current.Failure? {
        return Some(current.error);
      }
      var newVersion := Newest(versions);
      if current.value == newVersion {
        return None;
      }
      var _ := UpdateIfTestPasses(r, newVersion);
      error := None;
    }

    /** `update()`, with `urls` the imports found in the file, in order, and
        `releases` what `all()` yields for each recognised url. A failing
        validator before any change aborts the process. */
    method Run(urls: seq<string>, releases: RegistryUrl -> seq<string>) returns (error: Option<string>)
      modifies this
      ensures fails(old(content)) ==> error == Some(PREFLIGHT_ERROR) && content == old(content)
      ensures !fails(old(content)) ==>
                var s := UpdateSpec(old(content), urls, releases, fails);
                content == s.content && error == s.error
    {
      if fails(content) {
        return Some(PREFLIGHT_ERROR);
      }
      var i := 0;
      while i < |urls|
        invariant 0 <= i <= |urls|
        invariant UpdateSpec(old(content), urls[..i], releases, fails) == UpdateState(content, None)
      {
        UpdateSpecStep(old(content), urls, i, releases, fails);
        ghost var next := Advance(UpdateState(content, None), urls[i], releases, fails);
        var v := Versioned.Versioned(urls[i]);
        if v.Some? {
          var e := UpdateOne(v.value, releases(v.value));
          assert next == UpdateState(content, e);
          if e.Some? {
            UpdateStopsAtError(old(content), urls, i + 1, releases, fails);
            return e;
          }
        }
        i := i + 1;
      }
      assert urls[..i] == urls;
      error := None;
    }
  }
}
