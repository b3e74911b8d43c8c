/** Link collection (main.js:429-439): the pattern
    `<a href="(?<filename>[a-zA-Z0-9:.\-\/]+` + version + `[a-zA-Z0-9:._\-\/]+)`, built with the
    `g` flag once per channel and tick and `exec`-ed once per line, then the collected links
    made unique and sorted. */
module Urls {
  import opened Text
  import opened Patterns

  const HrefOpen := "<a href=\""

  /** The link pattern of `version` matches `line` at `p`, with `n` characters between
      `<a href="` and the version: `<a href="`, n link characters, the version (its `.` matching
      any character but a line terminator), and at least one link-tail character. */
  predicate LinkAt(line: string, p: nat, version: string, n: nat)
  {
    var v := p + |HrefOpen| + n;
    v + |version| < |line| && OccursAt(line, p, HrefOpen) && n >= 1
    && AllIn(line, p + |HrefOpen|, v, IsLinkChar) && InterpolatedAt(line, v, version)
    && IsLinkTailChar(line[v + |version|])
  }

  /** What a link looks like: `n` link characters, the version, and link-tail characters up to
      its end. */
  predicate LinkShape(url: string, version: string, n: nat)
  {
    n >= 1 && n + |version| < |url| && AllIn(url, 0, n, IsLinkChar)
    && InterpolatedAt(url, n, version) && AllIn(url, n + |version|, |url|, IsLinkTailChar)
  }

  /** A successful `exec`: where the match starts and ends, how many characters come before the
      version, and the captured link. */
  datatype LinkMatch = LinkMatch(start: nat, end: nat, lead: nat, url: string)

  /** The greedy `[...]+` before the version backs off one character at a time: the longest
      lead, at most `n`, after which the rest of the pattern matches. */
  function LongestLead(line: string, p: nat, version: string, n: nat): (r: Option<nat>)
    ensures r.Some? ==> 1 <= r.value <= n && LinkAt(line, p, version, r.value)
    ensures r.Some? ==> forall m: nat :: r.value < m <= n ==> !LinkAt(line, p, version, m)
    ensures r.None? ==> forall m: nat :: m <= n ==> !LinkAt(line, p, version, m)
    decreases n
  {
    if n == 0 then None
    else if LinkAt(line, p, version, n) then Some(n)
    else LongestLead(line, p, version, n - 1)
  }

  /** The match at offset `p`, if any: the longest lead, and then every link-tail character
      (the tail is the last element of the pattern, so the greedy `+` keeps them all). */
  function MatchLinkAt(line: string, p: nat, version: string): (r: Option<LinkMatch>)
    ensures r.Some? ==>
              && r.value.start == p && LinkAt(line, p, version, r.value.lead)
              && (forall m: nat :: r.value.lead < m ==> !LinkAt(line, p, version, m))
              && var tail := p + |HrefOpen| + r.value.lead + |version|;
              && tail < r.value.end <= |line|
              && AllIn(line, tail, r.value.end, IsLinkTailChar)
              && (r.value.end == |line| || !IsLinkTailChar(line[r.value.end]))
              && r.value.url == line[p + |HrefOpen|..r.value.end]
    ensures r.None? ==> forall m: nat :: !LinkAt(line, p, version, m)
  {
    if OccursAt(line, p, HrefOpen) then
      var most := Run(line, p + |HrefOpen|, IsLinkChar);
      match LongestLead(line, p, version, most)
      case None => None
      case Some(n) =>
        var tail := p + |HrefOpen| + n + |version|;
        var e := tail + Run(line, tail, IsLinkTailChar);
        Some(LinkMatch(p, e, n, line[p + |HrefOpen|..e]))
    else None
  }

  /** `exec` of the link pattern on `line` from `lastIndex == from`: the first offset at or
      after `from` where the pattern matches. */
  function ExecLink(line: string, from: nat, version: string): (r: Option<LinkMatch>)
    ensures r.Some? ==> from <= r.value.start < r.value.end <= |line|
    decreases |line| - from
  {
    if from >= |line| then None
    else
      match MatchLinkAt(line, from, version)
      case Some(m) => Some(m)
      case None => ExecLink(line, from + 1, version)
  }

  /** `exec` finds the leftmost match at or after `from`. */
  lemma {:induction false} ExecLinkLeftmost(line: string, from: nat, version: string)
    requires ExecLink(line, from, version).Some?
    ensures var r := ExecLink(line, from, version);
      && from <= r.value.start && r == MatchLinkAt(line, r.value.start, version)
      && forall q: nat, m: nat :: from <= q < r.value.start ==> !LinkAt(line, q, version, m)
    decreases |line| - from
  {
    var r := ExecLink(line, from, version);
    if MatchLinkAt(line, from, version).None? {
      ExecLinkLeftmost(line, from + 1, version);
      assert r == ExecLink(line, from + 1, version);
      forall q: nat, m: nat | from <= q < r.value.start
        ensures !LinkAt(line, q, version, m)
      {
        if q == from {
          assert MatchLinkAt(line, from, version).None?;
        }
      }
    } else {
      assert r == MatchLinkAt(line, from, version);
    }
  }

  /** `exec` fails only when the pattern matches nowhere at or after `from`. */
  lemma {:induction false} ExecLinkMissed(line: string, from: nat, version: string)
    requires ExecLink(line, from, version).None?
    ensures forall q: nat, m: nat :: from <= q ==> !LinkAt(line, q, version, m)
    decreases |line| - from
  {
    if from < |line| {
      ExecLinkMissed(line, from + 1, version);
    }
  }

  /** A stretch of a line made of link characters, the version and link-tail characters is a
      link on its own. */
  lemma SliceShape(line: string, s: nat, e: nat, version: string, n: nat)
    requires n >= 1 && s + n + |version| < e <= |line|
    requires AllIn(line, s, s + n, IsLinkChar) && InterpolatedAt(line, s + n, version)
    requires AllIn(line, s + n + |version|, e, IsLinkTailChar)
    ensures LinkShape(line[s..e], version, n)
  {
    var u := line[s..e];
    assert AllIn(u, 0, n, IsLinkChar) by {
      forall k | 0 <= k < n ensures IsLinkChar(u[k]) {
        assert u[k] == line[s + k];
      }
    }
    assert InterpolatedAt(u, n, version) by {
      forall k | 0 <= k < |version| ensures Interpolated(version[k], u[n + k]) {
        assert u[n + k] == line[s + n + k];
      }
    }
    assert AllIn(u, n + |version|, |u|, IsLinkTailChar) by {
      forall k | n + |version| <= k < |u| ensures IsLinkTailChar(u[k]) {
        assert u[k] == line[s + k];
      }
    }
  }

  /** The link a match captures has the link's shape and stands right after `<a href="`. */
  lemma MatchedLinkShape(line: string, p: nat, version: string)
    requires MatchLinkAt(line, p, version).Some?
    ensures var m := MatchLinkAt(line, p, version).value;
      && LinkShape(m.url, version, m.lead)
      && OccursAt(line, p, HrefOpen) && OccursAt(line, p + |HrefOpen|, m.url)
  {
    var m := MatchLinkAt(line, p, version).value;
    var s := p + |HrefOpen|;
    assert LinkAt(line, p, version, m.lead);
    SliceShape(line, s, m.end, version, m.lead);
  }

  /** What the pattern object carries between lines: the links pushed so far and its
      `lastIndex`. */
  datatype LinkScan = LinkScan(urls: seq<string>, lastIndex: nat)

  /** One `exec` on a line, and the push onto `rawurls` when it succeeds. */
  function LinkStep(st: LinkScan, line: string, version: string): (r: LinkScan)
    ensures st.urls <= r.urls && |r.urls| <= |st.urls| + 1 && r.lastIndex <= |line|
  {
    match ExecLink(line, st.lastIndex, version)
    case Some(m) => LinkScan(st.urls + [m.url], m.end)
    case None => LinkScan(st.urls, 0)
  }

  /** The links one fresh pattern collects from the lines, in order. */
  function ScanLinks(lines: seq<string>, version: string): (r: LinkScan)
    ensures |r.urls| <= |lines|
    ensures lines != [] ==> r.lastIndex <= |lines[|lines| - 1]|
    decreases |lines|
  {
    if lines == [] then LinkScan([], 0)
    else LinkStep(ScanLinks(lines[..|lines| - 1], version), lines[|lines| - 1], version)
  }

  /** The link `url` stands right after an `<a href="` of `line`. */
  predicate FollowsHref(line: string, url: string)
  {
    exists p: nat | p <= |line| :: OccursAt(line, p, HrefOpen) && OccursAt(line, p + |HrefOpen|, url)
  }

  /** `url` is a link for the version: some lead, the version, and link-tail characters. */
  predicate IsLinkFor(url: string, version: string)
  {
    exists n: nat | n <= |url| :: LinkShape(url, version, n)
  }

  /** One line adds at most one link, a link for the version standing after an `<a href="`. */
  lemma StepAddsLink(st: LinkScan, line: string, version: string)
    ensures var after := LinkStep(st, line, version);
      || after.urls == st.urls
      || exists u :: after.urls == st.urls + [u] && IsLinkFor(u, version) && FollowsHref(line, u)
  {
    var r := ExecLink(line, st.lastIndex, version);
    if r.Some? {
      ExecLinkLeftmost(line, st.lastIndex, version);
      var m := r.value;
      MatchedLinkShape(line, m.start, version);
      assert IsLinkFor(m.url, version);
      assert FollowsHref(line, m.url);
    }
  }

  /** Every collected link is a link for the version that follows an `<a href="` of one of the
      lines; each line gives at most one link. */
  lemma {:induction false} ScannedLinks(lines: seq<string>, version: string)
    ensures |ScanLinks(lines, version).urls| <= |lines|
    ensures forall u :: u in ScanLinks(lines, version).urls ==>
      IsLinkFor(u, version) && exists k :: 0 <= k < |lines| && FollowsHref(lines[k], u)
    decreases |lines|
  {
    if lines != [] {
      var n := |lines|;
      var init := lines[..n - 1];
      ScannedLinks(init, version);
      var before := ScanLinks(init, version);
      var after := ScanLinks(lines, version);
      assert after == LinkStep(before, lines[n - 1], version);
      StepAddsLink(before, lines[n - 1], version);
      forall u | u in after.urls
        ensures IsLinkFor(u, version) && exists k :: 0 <= k < n && FollowsHref(lines[k], u)
      {
        if u in before.urls {
          var k :| 0 <= k < |init| && FollowsHref(init[k], u);
          assert lines[k] == init[k];
        } else {
          assert FollowsHref(lines[n - 1], u);
        }
      }
    }
  }

  /** `exec` returns the match at the first offset from `from` at which the pattern matches. */
  lemma {:induction false} ExecLinkFinds(line: string, from: nat, version: string, q: nat, m: nat)
    requires from <= q && LinkAt(line, q, version, m)
    requires forall q': nat, m': nat :: from <= q' < q ==> !LinkAt(line, q', version, m')
    ensures MatchLinkAt(line, q, version).Some?
    ensures ExecLink(line, from, version) == MatchLinkAt(line, q, version)
    decreases q - from
  {
    if from < q {
      assert MatchLinkAt(line, from, version).None?;
      ExecLinkFinds(line, from + 1, version, q, m);
    }
  }

  /** A line on which the pattern matches from `lastIndex` on pushes the capture of the first
      such match and moves `lastIndex` to its end. */
  lemma LinkStepHit(st: LinkScan, line: string, version: string, q: nat, m: nat)
    requires st.lastIndex <= q && LinkAt(line, q, version, m)
    requires forall q': nat, m': nat :: st.lastIndex <= q' < q ==> !LinkAt(line, q', version, m')
    ensures MatchLinkAt(line, q, version).Some?
    ensures var hit := MatchLinkAt(line, q, version).value;
      LinkStep(st, line, version) == LinkScan(st.urls + [hit.url], hit.end)
  {
    ExecLinkFinds(line, st.lastIndex, version, q, m);
  }

  /** A line on which the pattern matches nowhere from `lastIndex` on pushes nothing and resets
      `lastIndex` to 0. */
  lemma LinkStepMiss(st: LinkScan, line: string, version: string)
    requires forall q: nat, m: nat :: st.lastIndex <= q ==> !LinkAt(line, q, version, m)
    ensures LinkStep(st, line, version) == LinkScan(st.urls, 0)
  {
    if ExecLink(line, st.lastIndex, version).Some? {
      ExecLinkLeftmost(line, st.lastIndex, version);
    }
  }

  /** The links collected from the first `j` lines are the first links collected from all. */
  lemma {:induction false} ScanLinksPrefix(lines: seq<string>, version: string, j: nat)
    requires j <= |lines|
    ensures var a := ScanLinks(lines[..j], version).urls;
      var b := ScanLinks(lines, version).urls;
      |a| <= |b| && b[..|a|] == a
    decreases |lines|
  {
    var n := |lines|;
    if j < n {
      var init := lines[..n - 1];
      ScanLinksPrefix(init, version, j);
      assert init[..j] == lines[..j];
      var a := ScanLinks(lines[..j], version).urls;
      var mid := ScanLinks(init, version).urls;
      var b := ScanLinks(lines, version).urls;
      assert b == mid || b == mid + [b[|b| - 1]];
      assert b[..|a|] == mid[..|a|];
    } else {
      assert lines[..j] == lines;
    }
  }

  /** Every line on which the pattern matches from the `lastIndex` the earlier lines left
      contributes the capture of its first such match, right after the links of the earlier
      lines. */
  lemma ScanPushesEveryHit(lines: seq<string>, version: string, k: nat, q: nat, m: nat)
    requires k < |lines|
    requires ScanLinks(lines[..k], version).lastIndex <= q && LinkAt(lines[k], q, version, m)
    requires var from := ScanLinks(lines[..k], version).lastIndex;
      forall q': nat, m': nat :: from <= q' < q ==> !LinkAt(lines[k], q', version, m')
    ensures var n := |ScanLinks(lines[..k], version).urls|;
      && MatchLinkAt(lines[k], q, version).Some?
      && n < |ScanLinks(lines, version).urls|
      && ScanLinks(lines, version).urls[n] == MatchLinkAt(lines[k], q, version).value.url
  {
    var before := ScanLinks(lines[..k], version);
    LinkStepHit(before, lines[k], version, q, m);
    assert lines[..k + 1][..k] == lines[..k];
    assert ScanLinks(lines[..k + 1], version) == LinkStep(before, lines[k], version);
    ScanLinksPrefix(lines, version, k + 1);
  }

  /** No element twice. */
  predicate NoDuplicates(s: seq<string>)
  {
    forall i, j :: 0 <= i < j < |s| ==> s[i] != s[j]
  }

  /** `[...new Set(xs)]`: every distinct element once, where it first occurs. */
  function Distinct(xs: seq<string>): (r: seq<string>)
    ensures NoDuplicates(r)
    ensures forall x :: x in r <==> x in xs
    decreases |xs|
  {
    if xs == [] then []
    else
      var d := Distinct(xs[..|xs| - 1]);
      if xs[|xs| - 1] in d then d else d + [xs[|xs| - 1]]
  }

  /** Sorted the way `Array.prototype.sort` sorts strings by default. */
  predicate Sorted(s: seq<string>)
  {
    forall i, j :: 0 <= i < j < |s| ==> !Below(s[j], s[i])
  }

  lemma NotBelowTransitive(a: string, b: string, c: string)
    requires !Below(b, a) && !Below(c, b)
    ensures !Below(c, a)
  {
    BelowTotal(a, b);
    BelowTotal(b, c);
    if Below(c, a) {
      if a != b {
        BelowTransitive(c, a, b);
      }
    }
  }

  /** `x` placed into a sorted sequence in front of the first element not below it. */
  function Insert(x: string, s: seq<string>): (r: seq<string>)
    ensures multiset(r) == multiset(s) + multiset{x}
    ensures forall y :: y in r <==> y == x || y in s
    decreases |s|
  {
    if s == [] || !Below(s[0], x) then [x] + s
    else
      assert s == [s[0]] + s[1..];
      [s[0]] + Insert(x, s[1..])
  }

  /** Inserting a new element keeps a sequence free of duplicates. */
  lemma {:induction false} InsertNoDuplicates(x: string, s: seq<string>)
    requires NoDuplicates(s) && x !in s
    ensures NoDuplicates(Insert(x, s))
    decreases |s|
  {
    if s != [] && Below(s[0], x) {
      var rest := Insert(x, s[1..]);
      assert s == [s[0]] + s[1..];
      InsertNoDuplicates(x, s[1..]);
      assert s[0] !in s[1..];
      assert Insert(x, s) == [s[0]] + rest;
    }
  }

  /** Insertion keeps a sequence sorted. */
  lemma {:induction false} InsertSorted(x: string, s: seq<string>)
    requires Sorted(s)
    ensures Sorted(Insert(x, s))
    decreases |s|
  {
    var r := Insert(x, s);
    if s == [] || !Below(s[0], x) {
      forall i, j | 0 <= i < j < |r| ensures !Below(r[j], r[i]) {
        if i == 0 && j > 1 {
          NotBelowTransitive(x, s[0], s[j - 1]);
        }
      }
    } else {
      var rest := Insert(x, s[1..]);
      assert Sorted(s[1..]);
      InsertSorted(x, s[1..]);
      assert r == [s[0]] + rest;
      forall j | 0 < j < |r| ensures !Below(r[j], r[0]) {
        assert r[j] in rest;
        if r[j] == x {
          BelowTotal(s[0], x);
        } else {
          var k :| 0 <= k < |s[1..]| && s[1..][k] == r[j];
          assert s[k + 1] == r[j];
        }
      }
      forall i, j | 0 < i < j < |r| ensures !Below(r[j], r[i]) {
        assert r[j] == rest[j - 1] && r[i] == rest[i - 1];
      }
    }
  }

  /** The order `Array.prototype.sort` leaves an array of strings in: ascending, a permutation
      of what it was. */
  function SortStrings(s: seq<string>): (r: seq<string>)
    ensures multiset(r) == multiset(s)
    ensures forall y :: y in r <==> y in s
    ensures Sorted(r)
    ensures NoDuplicates(s) ==> NoDuplicates(r)
    decreases |s|
  {
    if s == [] then []
    else
      assert s == [s[0]] + s[1..];
      InsertSorted(s[0], SortStrings(s[1..]));
      if NoDuplicates(s) then
        assert s[0] !in s[1..];
        InsertNoDuplicates(s[0], SortStrings(s[1..]));
        Insert(s[0], SortStrings(s[1..]))
      else
        Insert(s[0], SortStrings(s[1..]))
  }

  /** `urls`: the collected links, each once, in ascending order. */
  function UniqueSorted(raw: seq<string>): seq<string>
  {
    SortStrings(Distinct(raw))
  }

  /** The link list holds exactly the collected links, each once, each strictly below the next. */
  lemma UniqueSortedShape(raw: seq<string>)
    ensures forall x :: x in UniqueSorted(raw) <==> x in raw
    ensures NoDuplicates(UniqueSorted(raw))
    ensures forall i, j :: 0 <= i < j < |UniqueSorted(raw)| ==>
      Below(UniqueSorted(raw)[i], UniqueSorted(raw)[j])
  {
    var u := UniqueSorted(raw);
    forall i, j | 0 <= i < j < |u| ensures Below(u[i], u[j]) {
      BelowTotal(u[i], u[j]);
    }
  }

  /** A sequence without duplicates is its own `Distinct`. */
  lemma {:induction false} DistinctOfDistinct(xs: seq<string>)
    requires NoDuplicates(xs)
    ensures Distinct(xs) == xs
    decreases |xs|
  {
    if xs != [] {
      var init := xs[..|xs| - 1];
      DistinctOfDistinct(init);
      assert xs[|xs| - 1] !in init;
      assert init + [xs[|xs| - 1]] == xs;
    }
  }

  /** Sorting a sorted sequence leaves it as it is. */
  lemma {:induction false} SortSorted(s: seq<string>)
    requires Sorted(s)
    ensures SortStrings(s) == s
    decreases |s|
  {
    if s != [] {
      assert Sorted(s[1..]);
      SortSorted(s[1..]);
      assert s == [s[0]] + s[1..];
    }
  }

  /** Dropping the first element keeps a sequence sorted and free of duplicates. */
  lemma TailShape(a: seq<string>)
    requires a != [] && Sorted(a) && NoDuplicates(a)
    ensures Sorted(a[1..]) && NoDuplicates(a[1..])
  {
    var t := a[1..];
    assert forall i :: 0 <= i < |t| ==> t[i] == a[i + 1];
  }

  /** Two sorted sequences with the same elements start with the same element. */
  lemma SameHead(a: seq<string>, b: seq<string>)
    requires a != [] && Sorted(a) && Sorted(b)
    requires forall x :: x in a <==> x in b
    ensures b != [] && a[0] == b[0]
  {
    assert a[0] in a;
    var j :| 0 <= j < |b| && b[j] == a[0];
    assert b[0] in b;
    var i :| 0 <= i < |a| && a[i] == b[0];
    if i > 0 {
      assert !Below(a[i], a[0]);
    }
    if j > 0 {
      assert !Below(b[j], b[0]);
    }
    BelowTotal(a[0], b[0]);
  }

  /** Without their common first element, two sequences free of duplicates with the same
      elements still have the same elements. */
  lemma SameTailElements(a: seq<string>, b: seq<string>)
    requires a != [] && b != [] && a[0] == b[0] && NoDuplicates(a) && NoDuplicates(b)
    requires forall x :: x in a <==> x in b
    ensures forall x :: x in a[1..] <==> x in b[1..]
  {
    forall x | x in a[1..] ensures x in b[1..] {
      TailMember(a, b, x);
    }
    forall x | x in b[1..] ensures x in a[1..] {
      TailMember(b, a, x);
    }
  }

  lemma TailMember(a: seq<string>, b: seq<string>, x: string)
    requires a != [] && b != [] && a[0] == b[0] && NoDuplicates(a)
    requires x in a[1..] && x in b
    ensures x in b[1..]
  {
    var k :| 0 <= k < |a| - 1 && a[1..][k] == x;
    assert a[k + 1] == x && a[0] != x;
    var m :| 0 <= m < |b| && b[m] == x;
    assert m != 0 && b[1..][m - 1] == x;
  }

  /** Two sequences with the same elements are both empty or both not. */
  lemma SameEmptiness(a: seq<string>, b: seq<string>)
    requires forall x :: x in a <==> x in b
    ensures a == [] <==> b == []
  {
    if a != [] {
      assert a[0] in a;
    }
    if b != [] {
      assert b[0] in b;
    }
  }

  /** Two strictly ascending sequences with the same elements are the same sequence. */
  lemma {:induction false} AscendingUnique(a: seq<string>, b: seq<string>)
    requires Sorted(a) && NoDuplicates(a) && Sorted(b) && NoDuplicates(b)
    requires forall x :: x in a <==> x in b
    ensures a == b
    decreases |a|
  {
    SameEmptiness(a, b);
    if a != [] {
      SameHead(a, b);
      SameTailElements(a, b);
      TailShape(a);
      TailShape(b);
      AscendingUnique(a[1..], b[1..]);
      assert a == [a[0]] + a[1..] && b == [b[0]] + b[1..];
    }
  }

  /** The link list depends only on which links were collected, not on their order or how
      often each was seen; and building it from its own result changes nothing. */
  lemma UniqueSortedCanonical(raw1: seq<string>, raw2: seq<string>)
    requires forall x :: x in raw1 <==> x in raw2
    ensures UniqueSorted(raw1) == UniqueSorted(raw2)
    ensures UniqueSorted(UniqueSorted(raw1)) == UniqueSorted(raw1)
  {
    UniqueSortedShape(raw1);
    UniqueSortedShape(raw2);
    AscendingUnique(UniqueSorted(raw1), UniqueSorted(raw2));
    var u := UniqueSorted(raw1);
    DistinctOfDistinct(u);
    SortSorted(u);
  }
}
