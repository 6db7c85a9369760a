/** The JavaScript string operations the core relies on, with the facts about
    them that the rest of the model needs: `split`/`join` (and so the
    `split(a).join(b)` substitution both mod.ts and update.ts use),
    `trim`, `startsWith`, `indexOf`, and the substitute-validate-revert step. */
module Text {
  import opened Wrappers

  // ---------------------------------------------------------------------------
  // Characters, prefixes, trimming

  /** JavaScript's WhiteSpace and LineTerminator characters: the set matched
      by `\s` and removed by `String.prototype.trim`. */
  predicate IsJsSpace(c: char) {
    || c == ' ' || c == '\t' || c == '\n' || c == '\r'
    || c == '\U{000B}' || c == '\U{000C}' || c == '\U{00A0}' || c == '\U{1680}'
    || ('\U{2000}' <= c <= '\U{200A}')
    || c == '\U{2028}' || c == '\U{2029}' || c == '\U{202F}' || c == '\U{205F}'
    || c == '\U{3000}' || c == '\U{FEFF}'
  }

  /** The characters a regular-expression `.` does not match. */
  predicate IsLineTerminator(c: char) {
    c == '\n' || c == '\r' || c == '\U{2028}' || c == '\U{2029}'
  }

  /** `s` holds no character a regular-expression `.` refuses. */
  predicate NoLineTerminator(s: string) {
    forall i :: 0 <= i < |s| ==> !IsLineTerminator(s[i])
  }

  predicate StartsWith(s: string, prefix: string) {
    |prefix| <= |s| && s[..|prefix|] == prefix
  }

  /** `s` is white space only. */
  predicate AllSpace(s: string) {
    forall i :: 0 <= i < |s| ==> IsJsSpace(s[i])
  }

  /** The length of the white space `s` starts with. */
  function LeadingSpace(s: string): (n: nat)
    ensures n <= |s| && AllSpace(s[..n]) && (n == |s| || !IsJsSpace(s[n]))
    decreases |s|
  {
    if s != [] && IsJsSpace(s[0]) then
      var m := LeadingSpace(s[1..]);
      assert s[..m + 1] == [s[0]] + s[1..][..m];
      m + 1
    else 0
  }

  /** The length of the white space `s` ends with. */
  function TrailingSpace(s: string): (n: nat)
    ensures n <= |s| && AllSpace(s[|s| - n..]) && (n == |s| || !IsJsSpace(s[|s| - n - 1]))
    decreases |s|
  {
    if s != [] && IsJsSpace(s[|s| - 1]) then
      var m := TrailingSpace(s[..|s| - 1]);
      assert s[|s| - (m + 1)..] == s[..|s| - 1][|s| - 1 - m..] + [s[|s| - 1]];
      m + 1
    else 0
  }

  /** `s.trimStart()`: the suffix of `s` left after its leading white space. */
  function TrimStart(s: string): (r: string)
    ensures |r| <= |s| && r == s[|s| - |r|..]
    ensures r == [] || !IsJsSpace(r[0])
    ensures AllSpace(s[..|s| - |r|])
  {
    s[LeadingSpace(s)..]
  }

  /** `s.trimEnd()`: the prefix of `s` left after its trailing white space. */
  function TrimEnd(s: string): (r: string)
    ensures |r| <= |s| && r == s[..|r|]
    ensures r == [] || !IsJsSpace(r[|r| - 1])
    ensures AllSpace(s[|r|..])
  {
    s[..|s| - TrailingSpace(s)]
  }

  /** `s.trim()`. */
  function Trim(s: string): (r: string)
    ensures r == [] || (!IsJsSpace(r[0]) && !IsJsSpace(r[|r| - 1]))
    ensures var i := LeadingSpace(s);
            && i + |r| <= |s| && r == s[i..i + |r|]
            && AllSpace(s[..i]) && AllSpace(s[i + |r|..])
  {
    var r := TrimEnd(TrimStart(s));
    SliceOfSuffix(s, LeadingSpace(s), |r|);
    r
  }

  lemma SliceOfSuffix(s: string, i: nat, n: nat)
    requires i + n <= |s|
    ensures s[i..][..n] == s[i..i + n] && s[i..][n..] == s[i + n..]
  {
  }

  /** `s.indexOf(c)` for a single character, `None` for -1. */
  function IndexOfChar(s: string, c: char): (r: Option<nat>)
    ensures r.None? <==> c !in s
    ensures r.Some? ==> r.value < |s| && s[r.value] == c && c !in s[..r.value]
    decreases |s|
  {
    if s == [] then None
    else if s[0] == c then Some(0)
    else match IndexOfChar(s[1..], c)
      case None => None
      case Some(i) =>
        assert s[..i + 1] == [s[0]] + s[1..][..i];
        Some(i + 1)
  }

  // ---------------------------------------------------------------------------
  // Occurrences of a separator

  /** `sep` occurs in `s` starting at index `i`. */
  predicate OccursAt(s: string, sep: string, i: nat) {
    i + |sep| <= |s| && s[i..i + |sep|] == sep
  }

  /** No occurrence of `sep` starts inside `s`. */
  ghost predicate Absent(s: string, sep: string) {
    forall i: nat :: i < |s| ==> !OccursAt(s, sep, i)
  }

  /** In `p + sep`, the first occurrence of `sep` is the appended one. */
  ghost predicate NoEarlyOccurrence(p: string, sep: string) {
    forall i: nat :: i < |p| ==> !OccursAt(p + sep, sep, i)
  }

  /** `parts` is what a left-to-right scan for `sep` finds: joining them with
      `sep` puts the first occurrence of `sep` exactly at each joint. */
  ghost predicate Separable(parts: seq<string>, sep: string) {
    && (forall k :: 0 <= k < |parts| - 1 ==> NoEarlyOccurrence(parts[k], sep))
    && (|parts| > 0 ==> Absent(parts[|parts| - 1], sep))
  }

  /** `b` has no border: no proper non-empty prefix of `b` is also its suffix. */
  ghost predicate Unbordered(b: string) {
    forall m :: 0 < m < |b| ==> b[..m] != b[|b| - m..]
  }

  // ---------------------------------------------------------------------------
  // split and join

  /** `s.split(sep)` for a string separator. An empty separator splits into
      single characters (and the empty string into no parts at all); otherwise
      the parts are the text between successive leftmost, non-overlapping
      occurrences of `sep`. */
  function Split(s: string, sep: string): (parts: seq<string>)
    ensures sep != [] ==> |parts| >= 1
    ensures sep == [] ==> |parts| == |s|
    decreases |s|
  {
    if sep == [] then
      if s == [] then [] else [[s[0]]] + Split(s[1..], sep)
    else if |s| < |sep| then [s]
    else if s[..|sep|] == sep then [[]] + Split(s[|sep|..], sep)
    else
      var rest := Split(s[1..], sep);
      [[s[0]] + rest[0]] + rest[1..]
  }

  /** `parts.join(sep)`. */
  function Join(parts: seq<string>, sep: string): (s: string)
    ensures |parts| == 1 ==> s == parts[0]
  {
    if parts == [] then []
    else if |parts| == 1 then parts[0]
    else parts[0] + sep + Join(parts[1..], sep)
  }

  /** `s.split(a).join(b)`: every occurrence of `a` becomes `b`. */
  function ReplaceAll(s: string, a: string, b: string): string {
    Join(Split(s, a), b)
  }

  lemma JoinCons(x: string, tail: seq<string>, sep: string)
    requires |tail| >= 1
    ensures Join([x] + tail, sep) == x + sep + Join(tail, sep)
  {
    assert ([x] + tail)[1..] == tail;
  }

  /** Joining the parts of a split with the same separator gives back the text. */
  lemma {:induction false} JoinSplit(s: string, sep: string)
    ensures Join(Split(s, sep), sep) == s
    decreases |s|
  {
    if sep == [] {
      if s != [] {
        var rest := Split(s[1..], sep);
        JoinSplit(s[1..], sep);
        assert Split(s, sep) == [[s[0]]] + rest;
        JoinSingletonHead(s[0], rest);
        FirstAndRest(s);
      }
    } else if |s| < |sep| {
    } else if s[..|sep|] == sep {
      var rest := Split(s[|sep|..], sep);
      JoinSplit(s[|sep|..], sep);
      SplitAtSeparator(s, sep);
      JoinEmptyHead(sep, rest);
      PrefixAndRest(s, sep);
    } else {
      var rest := Split(s[1..], sep);
      JoinSplit(s[1..], sep);
      SplitStep(s, sep, rest);
      JoinPrependChar(s[0], rest, sep);
      FirstAndRest(s);
    }
  }

  lemma FirstAndRest(s: string)
    requires s != []
    ensures [s[0]] + s[1..] == s
  {
  }

  lemma PrefixAndRest(s: string, p: string)
    requires |p| <= |s| && s[..|p|] == p
    ensures p + s[|p|..] == s
  {
    assert s == s[..|p|] + s[|p|..];
  }

  /** One unfolding of Split where no separator starts at index 0. */
  lemma SplitStep(s: string, sep: string, rest: seq<string>)
    requires s != [] && sep != [] && |s| >= |sep| && s[..|sep|] != sep
    requires rest == Split(s[1..], sep)
    ensures Split(s, sep) == [[s[0]] + rest[0]] + rest[1..]
  {
  }

  /** One unfolding of Split where a separator starts at index 0. */
  lemma SplitAtSeparator(s: string, sep: string)
    requires sep != [] && |s| >= |sep| && s[..|sep|] == sep
    ensures Split(s, sep) == [[]] + Split(s[|sep|..], sep)
  {
  }

  /** A part made of one character in front. */
  lemma JoinSingletonHead(c: char, rest: seq<string>)
    ensures Join([[c]] + rest, []) == [c] + Join(rest, [])
  {
    if rest != [] {
      JoinCons([c], rest, []);
    } else {
      assert [[c]] + rest == [[c]];
    }
  }

  /** Prepending a character to the first part prepends it to the join. */
  lemma JoinPrependChar(c: char, rest: seq<string>, sep: string)
    requires |rest| >= 1
    ensures Join([[c] + rest[0]] + rest[1..], sep) == [c] + Join(rest, sep)
  {
    var head := [c] + rest[0];
    if |rest| > 1 {
      assert rest == [rest[0]] + rest[1..];
      JoinCons(rest[0], rest[1..], sep);
      JoinCons(head, rest[1..], sep);
    } else {
      assert [head] + rest[1..] == [head];
    }
  }

  /** An empty first part puts a separator in front. */
  lemma JoinEmptyHead(sep: string, rest: seq<string>)
    requires |rest| >= 1
    ensures Join([[]] + rest, sep) == sep + Join(rest, sep)
  {
    JoinCons([], rest, sep);
    assert [] + sep == sep;
  }

  /** Replacing a string by itself changes nothing. */
  lemma ReplaceAllSelf(s: string, a: string)
    ensures ReplaceAll(s, a, a) == s
  {
    JoinSplit(s, a);
  }

  /** The first part of a split is a prefix of the text. */
  lemma {:induction false} SplitHead(s: string, sep: string)
    requires |Split(s, sep)| >= 1
    ensures var h := Split(s, sep)[0]; |h| <= |s| && h == s[..|h|]
    decreases |s|
  {
    if sep == [] {
    } else if |s| < |sep| {
    } else if s[..|sep|] == sep {
    } else {
      SplitHead(s[1..], sep);
    }
  }

  lemma AbsentPrefix(s: string, n: nat, b: string)
    requires Absent(s, b) && n <= |s|
    ensures Absent(s[..n], b)
  {
    forall i: nat | i < n
      ensures !OccursAt(s[..n], b, i)
    {
      if i + |b| <= n {
        assert s[..n][i..i + |b|] == s[i..i + |b|];
        assert !OccursAt(s, b, i);
      }
    }
  }

  lemma AbsentSuffix(s: string, n: nat, b: string)
    requires Absent(s, b) && n <= |s|
    ensures Absent(s[n..], b)
  {
    forall i: nat | i < |s| - n
      ensures !OccursAt(s[n..], b, i)
    {
      if i + |b| <= |s| - n {
        assert s[n..][i..i + |b|] == s[n + i..n + i + |b|];
        assert !OccursAt(s, b, n + i);
      }
    }
  }

  /** A string that does not contain `b` splits, on any separator, into
      parts that do not contain `b` either. */
  lemma {:induction false} SplitPartsAbsent(s: string, a: string, b: string)
    requires Absent(s, b)
    ensures forall k :: 0 <= k < |Split(s, a)| ==> Absent(Split(s, a)[k], b)
    decreases |s|
  {
    var parts := Split(s, a);
    if a == [] {
      if s != [] {
        AbsentPrefix(s, 1, b);
        AbsentSuffix(s, 1, b);
        SplitPartsAbsent(s[1..], a, b);
        assert s[..1] == [s[0]];
        assert parts == [[s[0]]] + Split(s[1..], a);
      }
    } else if |s| < |a| {
    } else if s[..|a|] == a {
      AbsentSuffix(s, |a|, b);
      SplitPartsAbsent(s[|a|..], a, b);
      assert parts == [[]] + Split(s[|a|..], a);
    } else {
      AbsentSuffix(s, 1, b);
      SplitPartsAbsent(s[1..], a, b);
      var rest := Split(s[1..], a);
      SplitHead(s[1..], a);
      assert [s[0]] + rest[0] == s[..1 + |rest[0]|];
      AbsentPrefix(s, 1 + |rest[0]|, b);
      assert parts == [[s[0]] + rest[0]] + rest[1..];
      forall k | 1 <= k < |parts|
        ensures Absent(parts[k], b)
      {
        assert parts[k] == rest[k];
      }
    }
  }

  /** An occurrence of an unbordered `b` that starts inside `p` in `p + b`
      lies inside `p`. */
  lemma AbsentUnborderedNoEarly(p: string, b: string)
    requires Absent(p, b) && Unbordered(b) && |b| > 0
    ensures NoEarlyOccurrence(p, b)
  {
    forall i: nat | i < |p|
      ensures !OccursAt(p + b, b, i)
    {
      if i + |b| <= |p| {
        assert (p + b)[i..i + |b|] == p[i..i + |b|];
        assert !OccursAt(p, b, i);
      } else {
        // an occurrence here would end with the first m characters of the
        // appended copy, making b[..m] a border of b
        var m := i + |b| - |p|;
        var window := (p + b)[i..i + |b|];
        assert window[|b| - m..] == b[..m];
        assert b[..m] != b[|b| - m..];
      }
    }
  }

  lemma NoEarlyIsAbsent(p: string, sep: string)
    requires NoEarlyOccurrence(p, sep)
    ensures Absent(p, sep)
  {
    forall i: nat | i < |p|
      ensures !OccursAt(p, sep, i)
    {
      if i + |sep| <= |p| {
        assert (p + sep)[i..i + |sep|] == p[i..i + |sep|];
        assert !OccursAt(p + sep, sep, i);
      }
    }
  }

  /** A text with no occurrence of `sep` is a single part. */
  lemma {:induction false} SplitAbsent(p: string, sep: string)
    requires |sep| > 0 && Absent(p, sep)
    ensures Split(p, sep) == [p]
    decreases |p|
  {
    if |p| >= |sep| {
      assert !OccursAt(p, sep, 0);
      AbsentSuffix(p, 1, sep);
      SplitAbsent(p[1..], sep);
      assert [p[0]] + p[1..] == p;
    }
  }

  /** When the first occurrence of `sep` in `p + sep + rest` is right after
      `p`, the split peels off `p`. */
  lemma {:induction false} SplitAfter(p: string, sep: string, rest: string)
    requires |sep| > 0 && NoEarlyOccurrence(p, sep)
    ensures Split(p + sep + rest, sep) == [p] + Split(rest, sep)
    decreases |p|
  {
    var s := p + sep + rest;
    if p == [] {
      assert s == sep + rest;
      assert s[..|sep|] == sep && s[|sep|..] == rest;
      SplitAtSeparator(s, sep);
    } else {
      var p' := p[1..];
      NoEarlyTail(p, sep);
      SplitAfter(p', sep, rest);
      SplitAfterStep(p, sep, rest);
    }
  }

  lemma NoEarlyTail(p: string, sep: string)
    requires p != [] && NoEarlyOccurrence(p, sep)
    ensures NoEarlyOccurrence(p[1..], sep)
  {
    var p' := p[1..];
    forall i: nat | i < |p'|
      ensures !OccursAt(p' + sep, sep, i)
    {
      assert (p' + sep)[i..i + |sep|] == (p + sep)[i + 1..i + 1 + |sep|];
      assert !OccursAt(p + sep, sep, i + 1);
    }
  }

  /** The step of SplitAfter: no separator at index 0, so the split consumes
      `p[0]` into the first part. */
  lemma SplitAfterStep(p: string, sep: string, rest: string)
    requires |sep| > 0 && p != [] && NoEarlyOccurrence(p, sep)
    requires Split(p[1..] + sep + rest, sep) == [p[1..]] + Split(rest, sep)
    ensures Split(p + sep + rest, sep) == [p] + Split(rest, sep)
  {
    var s := p + sep + rest;
    assert !OccursAt(p + sep, sep, 0);
    assert (p + sep)[..|sep|] == s[..|sep|];
    assert s[1..] == p[1..] + sep + rest;
    SplitStep(s, sep, [p[1..]] + Split(rest, sep));
    assert [s[0]] + p[1..] == p;
  }

  /** Splitting undoes joining for separable parts: together with JoinSplit
      and SplitSeparable this says Split(s, sep) is the one separable list of
      parts that joins to `s`. */
  lemma {:induction false} SplitJoin(parts: seq<string>, sep: string)
    requires |sep| > 0 && |parts| >= 1 && Separable(parts, sep)
    ensures Split(Join(parts, sep), sep) == parts
    decreases |parts|
  {
    if |parts| == 1 {
      SplitAbsent(parts[0], sep);
    } else {
      var tail := parts[1..];
      assert parts == [parts[0]] + tail;
      JoinCons(parts[0], tail, sep);
      assert NoEarlyOccurrence(parts[0], sep);
      SplitAfter(parts[0], sep, Join(tail, sep));
      forall k | 0 <= k < |tail| - 1
        ensures NoEarlyOccurrence(tail[k], sep)
      {
        assert tail[k] == parts[k + 1];
      }
      assert tail[|tail| - 1] == parts[|parts| - 1];
      SplitJoin(tail, sep);
    }
  }

  /** The parts of a split are separable: each occurrence of `sep` that the
      split cut at is the leftmost one. */
  lemma {:induction false} SplitSeparable(s: string, sep: string)
    requires |sep| > 0
    ensures Separable(Split(s, sep), sep)
    decreases |s|
  {
    if |s| < |sep| {
      forall i: nat | i < |s|
        ensures !OccursAt(s, sep, i)
      {
      }
    } else if s[..|sep|] == sep {
      SplitSeparable(s[|sep|..], sep);
      SplitAtSeparator(s, sep);
      SeparableEmptyHead(Split(s[|sep|..], sep), sep);
    } else {
      var rest := Split(s[1..], sep);
      SplitSeparable(s[1..], sep);
      JoinSplit(s[1..], sep);
      SplitStep(s, sep, rest);
      SeparableGrowHead(s, sep, rest);
    }
  }

  lemma SeparableEmptyHead(rest: seq<string>, sep: string)
    requires |rest| >= 1 && Separable(rest, sep)
    ensures Separable([[]] + rest, sep)
  {
    var parts := [[]] + rest;
    forall k | 0 <= k < |parts| - 1
      ensures NoEarlyOccurrence(parts[k], sep)
    {
      if k > 0 {
        assert parts[k] == rest[k - 1];
      }
    }
    assert parts[|parts| - 1] == rest[|rest| - 1];
  }

  /** No occurrence at 0 and none in the tail: none at all. */
  lemma AbsentGrow(s: string, sep: string)
    requires s != [] && !OccursAt(s, sep, 0) && Absent(s[1..], sep)
    ensures Absent(s, sep)
  {
    forall i: nat | 0 < i < |s|
      ensures !OccursAt(s, sep, i)
    {
      if i + |sep| <= |s| {
        assert s[1..][i - 1..i - 1 + |sep|] == s[i..i + |sep|];
        assert !OccursAt(s[1..], sep, i - 1);
      }
    }
  }

  /** The analogue of AbsentGrow for NoEarlyOccurrence. */
  lemma NoEarlyGrow(c: char, p: string, sep: string)
    requires !OccursAt([c] + p + sep, sep, 0) && NoEarlyOccurrence(p, sep)
    ensures NoEarlyOccurrence([c] + p, sep)
  {
    var q := [c] + p + sep;
    forall i: nat | 0 < i < |[c] + p|
      ensures !OccursAt(q, sep, i)
    {
      assert q[i..i + |sep|] == (p + sep)[i - 1..i - 1 + |sep|];
      assert !OccursAt(p + sep, sep, i - 1);
    }
  }

  /** The separable step for a split that consumed the character `s[0]`. */
  lemma SeparableGrowHead(s: string, sep: string, rest: seq<string>)
    requires sep != [] && |s| >= |sep| && s[..|sep|] != sep
    requires |rest| >= 1 && Separable(rest, sep) && Join(rest, sep) == s[1..]
    ensures Separable([[s[0]] + rest[0]] + rest[1..], sep)
  {
    assert s == [s[0]] + s[1..];
    assert !OccursAt(s, sep, 0);
    if |rest| == 1 {
      AbsentGrow(s, sep);
      assert [[s[0]] + rest[0]] + rest[1..] == [s];
    } else {
      SeparableGrowMany(s, sep, rest);
    }
  }

  lemma SeparableGrowMany(s: string, sep: string, rest: seq<string>)
    requires sep != [] && s != [] && !OccursAt(s, sep, 0)
    requires |rest| >= 2 && Separable(rest, sep) && Join(rest, sep) == s[1..]
    ensures Separable([[s[0]] + rest[0]] + rest[1..], sep)
  {
    HeadNoEarly(s, sep, rest);
    SeparableNewHead([s[0]] + rest[0], rest, sep);
  }

  /** The first part, grown by `s[0]`, still meets `sep` only at its end. */
  lemma HeadNoEarly(s: string, sep: string, rest: seq<string>)
    requires sep != [] && s != [] && !OccursAt(s, sep, 0)
    requires |rest| >= 2 && NoEarlyOccurrence(rest[0], sep) && Join(rest, sep) == s[1..]
    ensures NoEarlyOccurrence([s[0]] + rest[0], sep)
  {
    var head := [s[0]] + rest[0];
    var tail := Join(rest[1..], sep);
    JoinHeadPart(s, sep, rest);
    PrefixNoOccurrence(head + sep, tail, sep);
    NoEarlyGrow(s[0], rest[0], sep);
  }

  lemma JoinHeadPart(s: string, sep: string, rest: seq<string>)
    requires s != [] && |rest| >= 2 && Join(rest, sep) == s[1..]
    ensures s == [s[0]] + rest[0] + sep + Join(rest[1..], sep)
  {
    assert rest == [rest[0]] + rest[1..];
    JoinCons(rest[0], rest[1..], sep);
    FirstAndRest(s);
  }

  /** An occurrence at the start of a prefix is one at the start of the whole. */
  lemma PrefixNoOccurrence(x: string, t: string, sep: string)
    requires |sep| <= |x| && !OccursAt(x + t, sep, 0)
    ensures !OccursAt(x, sep, 0)
  {
    assert (x + t)[..|sep|] == x[..|sep|];
  }

  /** Replacing the first part by one that meets `sep` only at its end keeps
      the parts separable. */
  lemma SeparableNewHead(head: string, rest: seq<string>, sep: string)
    requires |rest| >= 2 && Separable(rest, sep) && NoEarlyOccurrence(head, sep)
    ensures Separable([head] + rest[1..], sep)
  {
    var parts := [head] + rest[1..];
    forall k | 0 <= k < |parts| - 1
      ensures NoEarlyOccurrence(parts[k], sep)
    {
      if k > 0 {
        assert parts[k] == rest[k];
      }
    }
    assert parts[|parts| - 1] == rest[|rest| - 1];
  }

  // ---------------------------------------------------------------------------
  // Splitting on a single character

  lemma CharAbsent(s: string, c: char)
    requires c !in s
    ensures Absent(s, [c]) && NoEarlyOccurrence(s, [c])
  {
    forall i: nat | i < |s|
      ensures !OccursAt(s, [c], i) && !OccursAt(s + [c], [c], i)
    {
      assert (s + [c])[i..i + 1] == [s[i]];
      assert s[i..i + 1] == [s[i]];
    }
  }

  lemma AbsentChar(s: string, c: char)
    requires Absent(s, [c])
    ensures c !in s
  {
    forall i | 0 <= i < |s|
      ensures s[i] != c
    {
      assert s[i..i + 1] == [s[i]];
      assert !OccursAt(s, [c], i);
    }
  }

  /** A text without `c` is one part. */
  lemma SplitNoChar(s: string, c: char)
    requires c !in s
    ensures Split(s, [c]) == [s]
  {
    CharAbsent(s, c);
    SplitAbsent(s, [c]);
  }

  /** The parts of a split on `c` do not contain `c`. */
  lemma SplitPartsNoChar(s: string, c: char)
    ensures forall k :: 0 <= k < |Split(s, [c])| ==> c !in Split(s, [c])[k]
  {
    var parts := Split(s, [c]);
    SplitSeparable(s, [c]);
    forall k | 0 <= k < |parts|
      ensures c !in parts[k]
    {
      if k < |parts| - 1 {
        NoEarlyIsAbsent(parts[k], [c]);
      }
      AbsentChar(parts[k], c);
    }
  }

  /** Joining parts without `c` on `c` and splitting again gives the parts. */
  lemma SplitJoinChar(parts: seq<string>, c: char)
    requires |parts| >= 1
    requires forall k :: 0 <= k < |parts| ==> c !in parts[k]
    ensures Split(Join(parts, [c]), [c]) == parts
  {
    forall k | 0 <= k < |parts|
      ensures Absent(parts[k], [c]) && NoEarlyOccurrence(parts[k], [c])
    {
      CharAbsent(parts[k], c);
    }
    SplitJoin(parts, [c]);
  }

  /** Every character of a join comes from a part or from the separator. */
  lemma {:induction false} JoinChars(parts: seq<string>, sep: string, x: char)
    requires x in Join(parts, sep)
    ensures x in sep || exists k :: 0 <= k < |parts| && x in parts[k]
    decreases |parts|
  {
    if |parts| > 1 {
      var rest := Join(parts[1..], sep);
      assert Join(parts, sep) == parts[0] + sep + rest;
      if x in rest {
        JoinChars(parts[1..], sep, x);
        if x !in sep {
          var k :| 0 <= k < |parts[1..]| && x in parts[1..][k];
          assert x in parts[k + 1];
        }
      } else if x !in sep {
        assert x in parts[0];
      }
    } else if |parts| == 1 {
      assert x in parts[0];
    }
  }

  /** The text between occurrences is kept: `ReplaceAll(s, a, b)` joins the
      very parts `s` is made of, with `b` where `s` had `a`. */
  lemma ReplaceAllKeepsParts(s: string, a: string, b: string)
    ensures var parts := Split(s, a);
            && Join(parts, a) == s
            && ReplaceAll(s, a, b) == Join(parts, b)
            && (a != [] ==> Separable(parts, a))
  {
    JoinSplit(s, a);
    if a != [] {
      SplitSeparable(s, a);
    }
  }

  /** Substituting `b` for `a` and then `a` for `b` restores the text when `b`
      is not already in it and cannot overlap a neighbouring copy of itself. */
  lemma RevertRestores(s: string, a: string, b: string)
    requires |b| > 0 && Absent(s, b) && Unbordered(b)
    ensures ReplaceAll(ReplaceAll(s, a, b), b, a) == s
  {
    var parts := Split(s, a);
    JoinSplit(s, a);
    if parts == [] {
      assert ReplaceAll(s, a, b) == [];
      assert Split([], b) == [[]];
    } else {
      SplitPartsAbsent(s, a, b);
      forall k | 0 <= k < |parts| - 1
        ensures NoEarlyOccurrence(parts[k], b)
      {
        AbsentUnborderedNoEarly(parts[k], b);
      }
      SplitJoin(parts, b);
    }
  }

  /** Without `Absent(s, b)` the revert can lose text: a `b` that was already
      in the file is turned into an `a` as well. */
  lemma RevertNeedsAbsence()
    ensures ReplaceAll(ReplaceAll("ab", "a", "b"), "b", "a") == "aa"
  {
    assert "b"[..1][0] != "a"[0];
    assert "b"[1..] == "";
    assert Split("", "a") == [""];
    SplitStep("b", "a", [""]);
    assert ["b"[0]] + "" == "b";
    assert Split("b", "a") == ["b"];
    assert "ab"[..1] == "a" && "ab"[1..] == "b";
    SplitAtSeparator("ab", "a");
    assert Join(["", "b"], "b") == "bb";
    assert "b"[..1] == "b";
    SplitAtSeparator("b", "b");
    assert Split("b", "b") == ["", ""];
    assert "bb"[..1] == "b" && "bb"[1..] == "b";
    SplitAtSeparator("bb", "b");
    assert Join(["", "", ""], "a") == "aa";
  }

  /** Without `Unbordered(b)` the revert can cut at the wrong place. */
  lemma RevertNeedsUnbordered()
    ensures ReplaceAll(ReplaceAll("yx", "x", "yy"), "yy", "x") == "xy"
  {
    assert "x"[..1] == "x" && "x"[1..] == "";
    SplitAtSeparator("x", "x");
    assert Split("x", "x") == ["", ""];
    assert "yx"[..1][0] != "x"[0];
    assert "yx"[1..] == "x";
    SplitStep("yx", "x", ["", ""]);
    assert ["yx"[0]] + "" == "y";
    assert Split("yx", "x") == ["y", ""];
    assert Join(["y", ""], "yy") == "yyy";
    assert "yyy"[..2] == "yy" && "yyy"[2..] == "y";
    SplitAtSeparator("yyy", "yy");
    assert Split("y", "yy") == ["y"];
    assert Join(["", "y"], "x") == "xy";
  }

  // ---------------------------------------------------------------------------
  // Substitute, validate, revert

  /** The update step both mod.ts and update.ts perform: replace every `a` by
      `b`, ask `accept` about the new text, and substitute `b` back to `a`
      when it refuses. Returns the final text and whether it was reverted. */
  function Substitute(s: string, a: string, b: string, accept: string -> bool): (string, bool) {
    var updated := ReplaceAll(s, a, b);
    if accept(updated) then (updated, false) else (ReplaceAll(updated, b, a), true)
  }

  /** The transaction leaves the text either fully updated (and accepted) or,
      when `b` is new to the text and unbordered, exactly as it was. */
  lemma SubstituteCommitsOrRestores(s: string, a: string, b: string, accept: string -> bool)
    requires |b| > 0 && Absent(s, b) && Unbordered(b)
    ensures var (t, reverted) := Substitute(s, a, b, accept);
            && (reverted <==> !accept(ReplaceAll(s, a, b)))
            && (reverted ==> t == s)
            && (!reverted ==> t == ReplaceAll(s, a, b))
  {
    RevertRestores(s, a, b);
  }
}
