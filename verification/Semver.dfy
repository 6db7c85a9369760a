/** semver.ts: a hand-written recogniser for the version grammar of Semantic
    Versioning 2.0.0 (optionally preceded by `v`), the comparison predicates
    the updater uses, and the `#`-fragment parser. */
module Semver {
  import opened Wrappers
  import opened Text
  import opened Lists

  // ---------------------------------------------------------------------------
  // The grammar

  predicate IsDigit(c: char) { '0' <= c <= '9' }

  /** `[0-9a-zA-Z-]` */
  predicate IsIdentChar(c: char) {
    IsDigit(c) || 'a' <= c <= 'z' || 'A' <= c <= 'Z' || c == '-'
  }

  predicate AllDigits(s: string) {
    forall i :: 0 <= i < |s| ==> IsDigit(s[i])
  }

  /** `0|[1-9]\d*`: a number without leading zeros. */
  predicate NumericId(s: string) {
    s == "0" || (|s| >= 1 && '1' <= s[0] <= '9' && AllDigits(s))
  }

  /** `0|[1-9]\d*|\d*[a-zA-Z-][0-9a-zA-Z-]*`: a numeric identifier, or an
      alphanumeric one with at least one letter or hyphen. */
  predicate PrereleaseId(s: string) {
    || NumericId(s)
    || ((forall i :: 0 <= i < |s| ==> IsIdentChar(s[i]))
        && exists i :: 0 <= i < |s| && !IsDigit(s[i]))
  }

  /** `[0-9a-zA-Z-]+` */
  predicate BuildId(s: string) {
    |s| >= 1 && forall i :: 0 <= i < |s| ==> IsIdentChar(s[i])
  }

  /** Dot-separated prerelease identifiers. */
  predicate ValidPrerelease(s: string) {
    forall k :: 0 <= k < |Split(s, ".")| ==> PrereleaseId(Split(s, ".")[k])
  }

  /** Dot-separated build identifiers. */
  predicate ValidBuild(s: string) {
    forall k :: 0 <= k < |Split(s, ".")| ==> BuildId(Split(s, ".")[k])
  }

  /** The capture groups of a successful match, and whether the `v` was there. */
  datatype Groups = Groups(
    hasV: bool,
    major: string, minor: string, patch: string,
    prerelease: Option<string>, build: Option<string>)

  predicate WellFormed(g: Groups) {
    && NumericId(g.major) && NumericId(g.minor) && NumericId(g.patch)
    && (g.prerelease.Some? ==> ValidPrerelease(g.prerelease.value))
    && (g.build.Some? ==> ValidBuild(g.build.value))
  }

  function LeadingV(hasV: bool): string {
    if hasV then "v" else ""
  }

  /** `major.minor.patch` */
  function Core(g: Groups): string {
    g.major + "." + g.minor + "." + g.patch
  }

  /** `-prerelease` and `+build`, each when present. */
  function RenderTail(pre: Option<string>, build: Option<string>): string {
    (if pre.Some? then "-" + pre.value else "")
    + (if build.Some? then "+" + build.value else "")
  }

  /** The text a well-formed group assignment stands for: the grammar is
      exactly the set of `Render(g)` with `WellFormed(g)`. */
  function Render(g: Groups): string {
    LeadingV(g.hasV) + (Core(g) + RenderTail(g.prerelease, g.build))
  }

  /** Index of the first `-` or `+` in `s`, or `|s|`. */
  function CoreEnd(s: string): (e: nat)
    ensures e <= |s|
    ensures forall i :: 0 <= i < e ==> s[i] != '-' && s[i] != '+'
    ensures e < |s| ==> s[e] == '-' || s[e] == '+'
    decreases |s|
  {
    if s == [] || s[0] == '-' || s[0] == '+' then 0 else 1 + CoreEnd(s[1..])
  }

  /** The prerelease and build groups read from what follows the version core. */
  function Tail(t: string): (Option<string>, Option<string>) {
    if t == [] then (None, None)
    else if t[0] == '+' then (None, Some(t[1..]))
    else match IndexOfChar(t[1..], '+')
      case None => (Some(t[1..]), None)
      case Some(j) => (Some(t[1..][..j]), Some(t[1..][j + 1..]))
  }

  /** `version.match(regex)`: the groups of the one way `s` fits the grammar. */
  function MatchVersion(s: string): (r: Option<Groups>)
    ensures r.Some? ==> WellFormed(r.value) && Render(r.value) == s
  {
    var hasV := |s| > 0 && s[0] == 'v';
    var body := if hasV then s[1..] else s;
    var e := CoreEnd(body);
    var core := Split(body[..e], ".");
    if |core| != 3 then None
    else
      var tail := Tail(body[e..]);
      var g := Groups(hasV, core[0], core[1], core[2], tail.0, tail.1);
      if !WellFormed(g) then None
      else
        MatchVersionSound(s, hasV, body, e, core, g);
        Some(g)
  }

  lemma MatchVersionSound(s: string, hasV: bool, body: string, e: nat, core: seq<string>, g: Groups)
    requires hasV == (|s| > 0 && s[0] == 'v') && body == (if hasV then s[1..] else s)
    requires e == CoreEnd(body) && core == Split(body[..e], ".") && |core| == 3
    requires (g.prerelease, g.build) == Tail(body[e..])
    requires g == Groups(hasV, core[0], core[1], core[2], g.prerelease, g.build)
    ensures Render(g) == s
  {
    JoinSplit(body[..e], ".");
    JoinThree(core, ".");
    TailRender(body[e..]);
    ConcatSlices(body, e);
    if hasV {
      FirstAndRest(s);
    }
  }

  lemma ConcatSlices(s: string, e: nat)
    requires e <= |s|
    ensures s[..e] + s[e..] == s
  {
  }

  /** Joining three parts. */
  lemma JoinThree(parts: seq<string>, sep: string)
    requires |parts| == 3
    ensures Join(parts, sep) == parts[0] + sep + parts[1] + sep + parts[2]
  {
    assert parts == [parts[0]] + [parts[1], parts[2]];
    JoinCons(parts[0], [parts[1], parts[2]], sep);
    assert [parts[1], parts[2]] == [parts[1]] + [parts[2]];
    JoinCons(parts[1], [parts[2]], sep);
  }

  /** Reading the tail gives back the tail. */
  lemma TailRender(t: string)
    requires t == [] || t[0] == '-' || t[0] == '+'
    ensures RenderTail(Tail(t).0, Tail(t).1) == t
  {
    if t == [] {
    } else if t[0] == '+' {
      TailPlus(t);
    } else {
      match IndexOfChar(t[1..], '+')
      case None => TailDash(t);
      case Some(j) => TailDashPlus(t, j);
    }
  }

  lemma TailPlus(t: string)
    requires t != [] && t[0] == '+'
    ensures Tail(t) == (None, Some(t[1..]))
    ensures RenderTail(None, Some(t[1..])) == t
  {
    FirstAndRest(t);
  }

  lemma TailDash(t: string)
    requires t != [] && t[0] == '-' && IndexOfChar(t[1..], '+').None?
    ensures Tail(t) == (Some(t[1..]), None)
    ensures RenderTail(Some(t[1..]), None) == t
  {
    FirstAndRest(t);
  }

  lemma TailDashPlus(t: string, j: nat)
    requires t != [] && t[0] == '-' && IndexOfChar(t[1..], '+') == Some(j)
    ensures Tail(t) == (Some(t[1..][..j]), Some(t[1..][j + 1..]))
    ensures RenderTail(Some(t[1..][..j]), Some(t[1..][j + 1..])) == t
  {
    var u := t[1..];
    CutAt(u, j);
    RenderDashPlus(t, u[..j], u[j + 1..]);
  }

  lemma RenderDashPlus(t: string, p: string, b: string)
    requires t != [] && t[0] == '-' && t[1..] == p + "+" + b
    ensures RenderTail(Some(p), Some(b)) == t
  {
    assert "-" + p + ("+" + b) == "-" + (p + "+" + b);
    FirstAndRest(t);
  }

  /** Cutting a text around one of its characters. */
  lemma CutAt(u: string, j: nat)
    requires j < |u|
    ensures u == u[..j] + [u[j]] + u[j + 1..]
  {
    assert u[..j + 1] == u[..j] + [u[j]];
    assert u == u[..j + 1] + u[j + 1..];
  }

  /** Every well-formed group assignment is matched, with exactly these
      groups: together with the postcondition of MatchVersion, the
      recogniser accepts exactly the grammar and reads its groups uniquely. */
  lemma MatchVersionComplete(g: Groups)
    requires WellFormed(g)
    ensures MatchVersion(Render(g)) == Some(g)
  {
    var s := Render(g);
    var core := Core(g);
    var t := RenderTail(g.prerelease, g.build);
    var body := core + t;
    NumericNoMarks(g.major);
    NumericNoMarks(g.minor);
    NumericNoMarks(g.patch);
    BodyOfRender(g);
    var hasV := |s| > 0 && s[0] == 'v';
    TailStart(g.prerelease, g.build);
    CoreMarks(g);
    CoreEndAt(core, t);
    SlicesOfConcat(core, t);
    CoreSplit(g);
    TailComplete(g.prerelease, g.build);
    MatchVersionUnfold(s, body, |core|, [g.major, g.minor, g.patch]);
  }

  /** One evaluation of MatchVersion, given its intermediate values. */
  lemma MatchVersionUnfold(s: string, body: string, e: nat, core: seq<string>)
    requires body == (if |s| > 0 && s[0] == 'v' then s[1..] else s)
    requires e == CoreEnd(body) && core == Split(body[..e], ".")
    ensures MatchVersion(s) ==
      if |core| != 3 then None
      else
        var g := Groups(|s| > 0 && s[0] == 'v', core[0], core[1], core[2],
                        Tail(body[e..]).0, Tail(body[e..]).1);
        if WellFormed(g) then Some(g) else None
  {
  }

  lemma SlicesOfConcat(a: string, b: string)
    ensures (a + b)[..|a|] == a && (a + b)[|a|..] == b
  {
  }

  /** Without and after the `v`, a rendering is its core and tail. */
  lemma BodyOfRender(g: Groups)
    requires NumericId(g.major)
    ensures var s, body := Render(g), Core(g) + RenderTail(g.prerelease, g.build);
            && (|s| > 0 && s[0] == 'v') == g.hasV
            && (if g.hasV then s[1..] else s) == body
  {
    NumericNoMarks(g.major);
    var body := Core(g) + RenderTail(g.prerelease, g.build);
    assert body[0] == g.major[0];
  }

  lemma TailStart(pre: Option<string>, build: Option<string>)
    ensures var t := RenderTail(pre, build); t == [] || t[0] == '-' || t[0] == '+'
  {
  }

  lemma CoreMarks(g: Groups)
    requires '-' !in g.major && '-' !in g.minor && '-' !in g.patch
    requires '+' !in g.major && '+' !in g.minor && '+' !in g.patch
    ensures '-' !in Core(g) && '+' !in Core(g)
  {
  }

  lemma CoreSplit(g: Groups)
    requires '.' !in g.major && '.' !in g.minor && '.' !in g.patch
    ensures Split(Core(g), ".") == [g.major, g.minor, g.patch]
  {
    JoinThree([g.major, g.minor, g.patch], ".");
    SplitJoinChar([g.major, g.minor, g.patch], '.');
  }

  /** A numeric identifier holds no `.`, `-` or `+`. */
  lemma NumericNoMarks(s: string)
    requires NumericId(s)
    ensures '.' !in s && '-' !in s && '+' !in s && s != [] && IsDigit(s[0])
  {
    if s != "0" {
      assert forall i :: 0 <= i < |s| ==> IsDigit(s[i]);
    }
  }

  lemma {:induction false} CoreEndAt(core: string, t: string)
    requires '-' !in core && '+' !in core
    requires t == [] || t[0] == '-' || t[0] == '+'
    ensures CoreEnd(core + t) == |core|
    decreases |core|
  {
    if core != [] {
      assert (core + t)[1..] == core[1..] + t;
      CoreEndAt(core[1..], t);
    }
  }

  lemma PrereleaseIdChars(q: string)
    requires PrereleaseId(q)
    ensures forall i :: 0 <= i < |q| ==> IsIdentChar(q[i])
  {
  }

  /** A valid prerelease is made of identifier characters and dots. */
  lemma PrereleaseChars(p: string)
    requires ValidPrerelease(p)
    ensures forall i :: 0 <= i < |p| ==> p[i] == '.' || IsIdentChar(p[i])
    ensures '+' !in p
  {
    var parts := Split(p, ".");
    JoinSplit(p, ".");
    forall i | 0 <= i < |p|
      ensures p[i] == '.' || IsIdentChar(p[i])
    {
      var x := p[i];
      JoinChars(parts, ".", x);
      if x != '.' {
        var k :| 0 <= k < |parts| && x in parts[k];
        PrereleaseIdChars(parts[k]);
      }
    }
  }

  lemma TailComplete(pre: Option<string>, build: Option<string>)
    requires pre.Some? ==> ValidPrerelease(pre.value)
    ensures Tail(RenderTail(pre, build)) == (pre, build)
  {
    var t := RenderTail(pre, build);
    if pre.Some? {
      PrereleaseChars(pre.value);
      if build.Some? {
        TailCompleteBoth(pre.value, build.value);
      } else {
        TailCompletePre(pre.value);
      }
    } else if build.Some? {
      assert t == "+" + build.value;
      assert t[1..] == build.value;
    }
  }

  lemma TailCompletePre(p: string)
    requires '+' !in p
    ensures Tail(RenderTail(Some(p), None)) == (Some(p), None)
  {
    var t := "-" + p;
    assert RenderTail(Some(p), None) == t;
    assert t[1..] == p;
  }

  lemma TailCompleteBoth(p: string, b: string)
    requires '+' !in p
    ensures Tail(RenderTail(Some(p), Some(b))) == (Some(p), Some(b))
  {
    var u := p + "+" + b;
    var t := "-" + u;
    assert RenderTail(Some(p), Some(b)) == t;
    assert t[1..] == u;
    IndexOfCharAfter(p, b, '+');
    SlicesAround(p, '+', b);
  }

  lemma IndexOfCharAfter(p: string, rest: string, c: char)
    requires c !in p
    ensures IndexOfChar(p + [c] + rest, c) == Some(|p|)
  {
    var u := p + [c] + rest;
    assert u[|p|] == c;
    assert u[..|p|] == p;
  }

  lemma SlicesAround(p: string, c: char, b: string)
    ensures var u := p + [c] + b; u[..|p|] == p && u[|p| + 1..] == b
  {
  }

  /** A match starts with `v` or a digit. */
  lemma MatchVersionFirst(s: string)
    ensures MatchVersion(s).Some? ==> s != [] && (s[0] == 'v' || IsDigit(s[0]))
  {
    if MatchVersion(s).Some? {
      RenderFirst(MatchVersion(s).value);
    }
  }

  lemma RenderFirst(g: Groups)
    requires NumericId(g.major)
    ensures Render(g) != [] && (Render(g)[0] == 'v' || IsDigit(Render(g)[0]))
  {
    NumericNoMarks(g.major);
    var body := Core(g) + RenderTail(g.prerelease, g.build);
    assert body[0] == g.major[0];
  }

  // ---------------------------------------------------------------------------
  // Semver values

  /** The decimal value of a digit string, as `parseInt` reads it. */
  function DecimalValue(s: string): (n: nat)
    requires AllDigits(s)
  {
    if s == [] then 0
    else 10 * DecimalValue(s[..|s| - 1]) + (s[|s| - 1] as int - '0' as int)
  }

  lemma DecimalDigit(c: char)
    requires IsDigit(c)
    ensures AllDigits([c]) && DecimalValue([c]) == c as int - '0' as int
  {
    assert [c][..0] == [];
  }

  datatype Semver = Semver(
    version: string,
    major: nat, minor: nat, patch: nat,
    prerelease: Option<string>, build: Option<string>)

  /** The fields the constructor sets from the groups of a match. */
  function FromGroups(version: string, g: Groups): Semver
    requires WellFormed(g)
  {
    NumericNoMarks(g.major);
    NumericNoMarks(g.minor);
    NumericNoMarks(g.patch);
    Semver(version, DecimalValue(g.major), DecimalValue(g.minor),
           DecimalValue(g.patch), g.prerelease, g.build)
  }

  /** `new Semver(version)`: throws "Not valid semver" unless the grammar
      matches; otherwise keeps the text and reads the numbers in decimal. */
  function NewSemver(version: string): (r: Result<Semver>)
    ensures r.Failure? ==> r.error == "Not valid semver"
    ensures r.Success? ==> r.value.version == version
  {
    match MatchVersion(version)
    case None => Failure("Not valid semver")
    case Some(g) => Success(FromGroups(version, g))
  }

  /** The constructor accepts exactly the texts the grammar describes. */
  lemma NewSemverAcceptsExactly(s: string)
    ensures NewSemver(s).Success? <==> exists g :: WellFormed(g) && Render(g) == s
  {
    if exists g :: WellFormed(g) && Render(g) == s {
      var g :| WellFormed(g) && Render(g) == s;
      MatchVersionComplete(g);
    }
  }

  /** On a text of the grammar, the constructor reads exactly its groups. */
  lemma NewSemverOfGroups(g: Groups)
    requires WellFormed(g)
    ensures NewSemver(Render(g)) == Success(FromGroups(Render(g), g))
  {
    MatchVersionComplete(g);
  }

  /** `semver(version)`: the constructor with its error turned into `None`. */
  function SemverOf(version: string): (r: Option<Semver>)
    ensures r.None? <==> NewSemver(version).Failure?
    ensures r.Some? ==> NewSemver(version) == Success(r.value)
  {
    match NewSemver(version)
    case Failure(_) => None
    case Success(v) => Some(v)
  }

  /** The example the unit tests use: `1.0.2` reads as 1, 0, 2. */
  lemma NewSemverExample()
    ensures NewSemver("1.0.2") == Success(Semver("1.0.2", 1, 0, 2, None, None))
  {
    var g := Groups(false, "1", "0", "2", None, None);
    ExampleGroups();
    NewSemverOfGroups(g);
    DecimalDigit('1');
    DecimalDigit('0');
    DecimalDigit('2');
  }

  lemma ExampleGroups()
    ensures WellFormed(Groups(false, "1", "0", "2", None, None))
    ensures Render(Groups(false, "1", "0", "2", None, None)) == "1.0.2"
  {
    assert NumericId("1") && NumericId("0") && NumericId("2");
  }

  /** The unit tests' refused example, `bad.0.2`. */
  lemma NewSemverRefusesExample()
    ensures NewSemver("bad.0.2") == Failure("Not valid semver")
  {
    MatchVersionFirst("bad.0.2");
  }

  /** A text starting with `=` is never a version. */
  lemma NewSemverRefusesEquals(w: string)
    ensures NewSemver("=" + w) == Failure("Not valid semver")
  {
    MatchVersionFirst("=" + w);
  }

  // ---------------------------------------------------------------------------
  // Comparison

  /** JavaScript's `<` on strings. The strings it is used on here (prerelease
      and build texts of valid versions) are ASCII, where code-unit order and
      character order agree. */
  predicate LexLess(a: string, b: string)
    decreases |a|
  {
    if a == [] then b != []
    else if b == [] then false
    else if a[0] != b[0] then a[0] < b[0]
    else LexLess(a[1..], b[1..])
  }

  lemma {:induction false} LexIrreflexive(a: string)
    ensures !LexLess(a, a)
    decreases |a|
  {
    if a != [] {
      LexIrreflexive(a[1..]);
    }
  }

  lemma {:induction false} LexAsymmetric(a: string, b: string)
    requires LexLess(a, b)
    ensures !LexLess(b, a)
    decreases |a|
  {
    if a != [] && b != [] && a[0] == b[0] {
      LexAsymmetric(a[1..], b[1..]);
    }
  }

  lemma {:induction false} LexTransitive(a: string, b: string, c: string)
    requires LexLess(a, b) && LexLess(b, c)
    ensures LexLess(a, c)
    decreases |a|
  {
    if a != [] && a[0] == b[0] && b[0] == c[0] {
      LexTransitive(a[1..], b[1..], c[1..]);
    }
  }

  /** Any two strings are equal or ordered one way. */
  lemma {:induction false} LexTrichotomy(a: string, b: string)
    ensures a == b || LexLess(a, b) || LexLess(b, a)
    decreases |a|
  {
    if a != [] && b != [] && a[0] == b[0] {
      LexTrichotomy(a[1..], b[1..]);
      if a[1..] == b[1..] {
        FirstAndRest(a);
        FirstAndRest(b);
      }
    }
  }

  /** `a.lt(b)`: (major, minor, patch) in lexicographic order; on a tie, the
      prerelease texts and then the build texts as strings, and only when
      both sides have one. This is not the precedence of section 11 of
      Semantic Versioning 2.0.0. */
  predicate Lt(a: Semver, b: Semver) {
    if a.major < b.major then true
    else if a.major > b.major then false
    else if a.minor < b.minor then true
    else if a.minor > b.minor then false
    else if a.patch < b.patch then true
    else if a.patch > b.patch then false
    else if a.prerelease.None? || b.prerelease.None? then false
    else if LexLess(a.prerelease.value, b.prerelease.value) then true
    else if LexLess(b.prerelease.value, a.prerelease.value) then false
    else if a.build.None? || b.build.None? then false
    else LexLess(a.build.value, b.build.value)
  }

  predicate TripleLess(a: Semver, b: Semver) {
    || a.major < b.major
    || (a.major == b.major && a.minor < b.minor)
    || (a.major == b.major && a.minor == b.minor && a.patch < b.patch)
  }

  predicate SameTriple(a: Semver, b: Semver) {
    a.major == b.major && a.minor == b.minor && a.patch == b.patch
  }

  /** When the numbers differ, they alone decide. */
  lemma LtByTriple(a: Semver, b: Semver)
    requires !SameTriple(a, b)
    ensures Lt(a, b) <==> TripleLess(a, b)
  {
  }

  /** On equal numbers, `lt` is false unless both sides have a prerelease. */
  lemma LtNeedsPrereleases(a: Semver, b: Semver)
    requires SameTriple(a, b) && (a.prerelease.None? || b.prerelease.None?)
    ensures !Lt(a, b) && !Lt(b, a)
  {
  }

  lemma LtIrreflexive(a: Semver)
    ensures !Lt(a, a)
  {
    if a.prerelease.Some? {
      LexIrreflexive(a.prerelease.value);
      if a.build.Some? {
        LexIrreflexive(a.build.value);
      }
    }
  }

  lemma LtAsymmetric(a: Semver, b: Semver)
    requires Lt(a, b)
    ensures !Lt(b, a)
  {
    if SameTriple(a, b) {
      var p, q := a.prerelease.value, b.prerelease.value;
      if LexLess(p, q) {
        LexAsymmetric(p, q);
      } else {
        LexAsymmetric(a.build.value, b.build.value);
      }
    }
  }

  lemma LtTransitive(a: Semver, b: Semver, c: Semver)
    requires Lt(a, b) && Lt(b, c)
    ensures Lt(a, c)
  {
    if SameTriple(a, b) && SameTriple(b, c) {
      var p, q, r := a.prerelease.value, b.prerelease.value, c.prerelease.value;
      LexTrichotomy(p, q);
      LexTrichotomy(q, r);
      if LexLess(p, q) && LexLess(q, r) {
        LexTransitive(p, q, r);
      } else if p == q && q == r {
        LexIrreflexive(p);
        LexTransitive(a.build.value, b.build.value, c.build.value);
      }
    }
  }

  /** `a.eq(b)`: the original texts are equal. */
  predicate Eq(a: Semver, b: Semver) {
    a.version == b.version
  }

  /** `v1.0.0` and `1.0.0` are not `eq`, yet neither is `lt` the other. */
  lemma LeadingVNotEq(g: Groups)
    requires WellFormed(g) && !g.hasV
    ensures var a, b := NewSemver(Render(g.(hasV := true))), NewSemver(Render(g));
            && a.Success? && b.Success?
            && !Eq(a.value, b.value) && !Lt(a.value, b.value) && !Lt(b.value, a.value)
  {
    var gv := g.(hasV := true);
    NewSemverOfGroups(g);
    NewSemverOfGroups(gv);
    RenderWithV(g);
    SameFieldsNotLt(FromGroups(Render(gv), gv), FromGroups(Render(g), g));
  }

  lemma RenderWithV(g: Groups)
    requires !g.hasV
    ensures |Render(g.(hasV := true))| == |Render(g)| + 1
  {
  }

  /** `lt` never looks at the original text. */
  lemma SameFieldsNotLt(a: Semver, b: Semver)
    requires SameTriple(a, b) && a.prerelease == b.prerelease && a.build == b.build
    ensures !Lt(a, b) && !Lt(b, a)
  {
    if a.prerelease.Some? {
      LexIrreflexive(a.prerelease.value);
      if a.build.Some? {
        LexIrreflexive(a.build.value);
      }
    }
  }

  /** `a.caret(b)`: same major. */
  predicate Caret(a: Semver, b: Semver) {
    a.major == b.major
  }

  /** `a.tilde(b)`: same major, and then either both majors are 0 or the
      minors agree. */
  function Tilde(a: Semver, b: Semver): (r: bool)
    ensures r ==> Caret(a, b)
    ensures a.major == 0 && b.major == 0 ==> r == Caret(a, b)
    ensures a.major != 0 ==> (r <==> Caret(a, b) && a.minor == b.minor)
  {
    if a.major != b.major then false
    else if a.major == 0 && b.major == 0 then true
    else a.minor == b.minor
  }

  const TOKENS: seq<string> := ["~", "^", "<", "<=", ">", ">=", "="]

  /** `a._(token, b)`. */
  function Apply(a: Semver, token: string, b: Semver): (r: Result<bool>)
    ensures r.Success? <==> token in TOKENS
    ensures r.Failure? ==> r.error == "modifier token not recognized: " + token
  {
    match token
    case "~" => Success(Tilde(a, b))
    case "^" => Success(Caret(a, b))
    case "<" => Success(Lt(a, b))
    case "<=" => Success(Eq(a, b) || Lt(a, b))
    case ">" => Success(!(Eq(a, b) || Lt(a, b)))
    case ">=" => Success(!Lt(a, b))
    case "=" => Success(Eq(a, b))
    case _ => Failure("modifier token not recognized: " + token)
  }

  /** How the operators relate: `>` is the negation of `<=`, `>=` the
      negation of `<`, and `<`, `<=`, `>=` are irreflexive or reflexive as
      their names say. */
  lemma ApplyRelations(a: Semver, b: Semver)
    ensures Apply(a, "<=", b) == Success(Eq(a, b) || Lt(a, b))
    ensures Apply(a, ">", b).value == !Apply(a, "<=", b).value
    ensures Apply(a, ">=", b).value == !Apply(a, "<", b).value
    ensures Apply(a, "=", b) == Success(Eq(a, b))
    ensures Apply(a, "<", a) == Success(false)
    ensures Apply(a, "<=", a) == Success(true) && Apply(a, ">=", a) == Success(true)
    ensures Apply(a, "<", b).value ==> !Apply(b, "<", a).value
  {
    LtIrreflexive(a);
    if Lt(a, b) {
      LtAsymmetric(a, b);
    }
  }

  // ---------------------------------------------------------------------------
  // Fragments

  /** `t` starts `f` and what follows, after leading white space, holds no
      line terminator: `^t\s*(.*?)$` matches with this alternative. */
  predicate TokenFits(f: string, t: string) {
    StartsWith(f, t) && NoLineTerminator(TrimStart(f[|t|..]))
  }

  /** The test the alternatives `^(~|\^|<|<=|>|>=|=)\s*(.*?)$` are put
      to, in order, by `f.match`: FindIndex over TOKENS finds the one that
      matches. */
  function Fits(f: string): string -> bool {
    t => TokenFits(f, t)
  }

  /** `f.match(/^(~|\^|<|<=|>|>=|=)\s*(.*?)$/)`: the first alternative that
      fits, and the text after it with its leading white space dropped. */
  function MatchOperator(f: string): (r: Option<(string, string)>)
    ensures r.None? <==> forall j :: 0 <= j < |TOKENS| ==> !TokenFits(f, TOKENS[j])
    ensures r.Some? ==> && r.value.0 in TOKENS && StartsWith(f, r.value.0)
                        && r.value.1 == TrimStart(f[|r.value.0|..])
                        && NoLineTerminator(r.value.1)
  {
    match FindIndex(TOKENS, Fits(f))
    case None => None
    case Some(i) => Some((TOKENS[i], TrimStart(f[|TOKENS[i]|..])))
  }

  /** A lone operator other than `<=` and `>=` matches as itself, with
      nothing after it. */
  lemma MatchLoneOperator(f: string)
    requires f in ["~", "^", "<", ">", "="]
    ensures MatchOperator(f) == Some((f, ""))
  {
    var i := if f == "~" then 0 else if f == "^" then 1 else if f == "<" then 2
             else if f == ">" then 4 else 6;
    LoneTokenFirst(f, i);
  }

  /** A lone operator other than `<=` and `>=` is the first alternative that
      fits it. */
  lemma LoneTokenFirst(f: string, i: nat)
    requires i in {0, 1, 2, 4, 6} && f == TOKENS[i]
    ensures FindIndex(TOKENS, Fits(f)) == Some(i)
    ensures TrimStart(f[|TOKENS[i]|..]) == ""
  {
    assert |TOKENS[0]| == |TOKENS[1]| == |TOKENS[2]| == |TOKENS[4]| == |TOKENS[6]| == 1;
    assert |TOKENS[3]| == |TOKENS[5]| == 2;
    assert f[|f|..] == "";
    assert f[..1] == f;
    forall j | 0 <= j < i
      ensures !TokenFits(f, TOKENS[j])
    {
      assert TOKENS[j] != f;
      assert !StartsWith(f, TOKENS[j]);
    }
    FindIndexIs(TOKENS, Fits(f), i);
  }

  /** Because `<` is tried before `<=`, the text `<=X` matches as the operator
      `<` followed by `=X`. */
  lemma MatchLessEqual(w: string)
    requires NoLineTerminator(w)
    ensures MatchOperator("<=" + w) == Some(("<", "=" + w))
  {
    var f := "<=" + w;
    LessFitsFirst(f, w);
    FindsLess(f);
  }

  /** Likewise `>` is tried before `>=`, so `>=X` matches as the operator
      `>` followed by `=X`. */
  lemma MatchGreaterEqual(w: string)
    requires NoLineTerminator(w)
    ensures MatchOperator(">=" + w) == Some((">", "=" + w))
  {
    var f := ">=" + w;
    assert |TOKENS[4]| == 1;
    assert f[..1] == ">";
    assert f[1..] == "=" + w;
    assert TrimStart("=" + w) == "=" + w;
    forall j | 0 <= j < 4
      ensures !TokenFits(f, TOKENS[j])
    {
      assert f[0] != TOKENS[j][0];
    }
    FindIndexIs(TOKENS, Fits(f), 4);
  }

  lemma FindsLess(f: string)
    requires TokenFits(f, "<") && !TokenFits(f, "~") && !TokenFits(f, "^")
    ensures FindIndex(TOKENS, Fits(f)) == Some(2)
  {
    FindIndexIs(TOKENS, Fits(f), 2);
  }

  lemma LessFitsFirst(f: string, w: string)
    requires f == "<=" + w && NoLineTerminator(w)
    ensures TokenFits(f, "<") && !TokenFits(f, "~") && !TokenFits(f, "^")
    ensures TrimStart(f[|TOKENS[2]|..]) == "=" + w
  {
    assert |TOKENS[2]| == 1;
    assert f[..1] == "<";
    assert f[1..] == "=" + w;
    assert TrimStart("=" + w) == "=" + w;
  }

  /** The parsed fragment: `candidate._(token, anchor)` decides a candidate. */
  datatype Constraint = Constraint(token: string, anchor: Semver)

  /** The text after `#`: its operator and the version after it (the current
      version when empty), or the error the source throws. */
  function FragmentConstraint(f: string, version: string): (r: Result<Constraint>)
    ensures r.Success? ==> r.value.token in TOKENS && StartsWith(Trim(f), r.value.token)
    ensures MatchOperator(Trim(f)).None? ==> r == Failure("invalid semver fragment: " + f)
    ensures MatchOperator(Trim(f)).Some? ==>
              var (t, v) := MatchOperator(Trim(f)).value;
              var target := if v == "" then version else v;
              && (NewSemver(target).Success? ==> r == Success(Constraint(t, NewSemver(target).value)))
              && (NewSemver(target).Failure? ==> r == Failure("invalid semver version: " + target))
  {
    match MatchOperator(Trim(f))
    case None => Failure("invalid semver fragment: " + f)
    case Some((token, v)) =>
      var target := if v == "" then version else v;
      match NewSemver(target)
      case Failure(_) => Failure("invalid semver version: " + target)
      case Success(s) => Success(Constraint(token, s))
  }

  /** `fragment(url, version)`: `None` without a `#`; otherwise the constraint
      the text after the first `#` states. */
  function Fragment(url: string, version: string): (r: Result<Option<Constraint>>)
    ensures r == Success(None) <==> |Split(url, "#")| < 2
    ensures r.Success? && r.value.Some? ==> r.value.value.token in TOKENS
    ensures |Split(url, "#")| >= 2 ==>
              var c := FragmentConstraint(Split(url, "#")[1], version);
              && (c.Success? ==> r == Success(Some(c.value)))
              && (c.Failure? ==> r == Failure(c.error))
  {
    var parts := Split(url, "#");
    if |parts| < 2 then Success(None)
    else
      var c :- FragmentConstraint(parts[1], version);
      Success(Some(c))
  }

  /** The predicate `fragment` returns: the candidate goes on the left. */
  function Satisfies(c: Constraint, candidate: Semver): (r: bool)
    requires c.token in TOKENS
    ensures Apply(candidate, c.token, c.anchor) == Success(r)
    ensures c.token == "<" ==> (r <==> Lt(candidate, c.anchor))
    ensures c.token == ">" ==> (r <==> !Eq(candidate, c.anchor) && !Lt(candidate, c.anchor))
  {
    Apply(candidate, c.token, c.anchor).value
  }

  /** A url without `#` has no fragment. */
  lemma FragmentWithoutHash(url: string, version: string)
    requires '#' !in url
    ensures Fragment(url, version) == Success(None)
  {
    SplitNoChar(url, '#');
  }

  /** A fragment that is a lone operator other than `<=` and `>=` takes the
      current version as its anchor. */
  lemma FragmentDefaultsToCurrent(f: string, version: string)
    requires Trim(f) in ["~", "^", "<", ">", "="]
    ensures FragmentConstraint(f, version) ==
      match NewSemver(version)
      case Success(s) => Success(Constraint(Trim(f), s))
      case Failure(_) => Failure("invalid semver version: " + version)
  {
    MatchLoneOperator(Trim(f));
  }

  /** The fragment `<=X` is refused: it reads as `<` with the version `=X`,
      which is never valid. */
  lemma FragmentLessEqualQuirk(f: string, version: string, w: string)
    requires Trim(f) == "<=" + w && NoLineTerminator(w)
    ensures FragmentConstraint(f, version) == Failure("invalid semver version: " + ("=" + w))
  {
    MatchLessEqual(w);
    NewSemverRefusesEquals(w);
  }

  /** The fragment `>=X` is refused in the same way: it reads as `>` with
      the version `=X`. */
  lemma FragmentGreaterEqualQuirk(f: string, version: string, w: string)
    requires Trim(f) == ">=" + w && NoLineTerminator(w)
    ensures FragmentConstraint(f, version) == Failure("invalid semver version: " + ("=" + w))
  {
    MatchGreaterEqual(w);
    NewSemverRefusesEquals(w);
  }
}
