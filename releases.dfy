/** Release discovery (main.js:88-139, main.js:213-230): the four release patterns
    `>(?<release>[0-9a-zA-Z\.]+)\s\(L` (and `S`, `T`, `D`), each a module-level RegExp with the
    `g` flag, so that every `exec` starts at the pattern's `lastIndex`, left where the previous
    `exec` on ANY line ended. */
module Releases {
  import opened Text
  import opened Patterns

  /** The four release tracks, in the order `for (const prop in releases)` visits them. */
  datatype Channel = LongTerm | Stable | Testing | Development

  const Channels: seq<Channel> := [LongTerm, Stable, Testing, Development]

  /** The letter after `(` that marks a release line of the channel. */
  function Marker(c: Channel): char
  {
    match c
    case LongTerm => 'L'
    case Stable => 'S'
    case Testing => 'T'
    case Development => 'D'
  }

  /** One value per channel, as the `releases` table keeps one record per channel. */
  datatype PerChannel<T> = PerChannel(longterm: T, stable: T, testing: T, development: T)
  {
    function Get(c: Channel): T
    {
      match c
      case LongTerm => longterm
      case Stable => stable
      case Testing => testing
      case Development => development
    }

    function Set(c: Channel, v: T): (r: PerChannel<T>)
      ensures r.Get(c) == v
      ensures forall d :: d != c ==> r.Get(d) == Get(d)
    {
      match c
      case LongTerm => this.(longterm := v)
      case Stable => this.(stable := v)
      case Testing => this.(testing := v)
      case Development => this.(development := v)
    }
  }

  /** The release pattern of `marker` matches `line` at offset `p` with an `n`-character
      version: `>`, the version, one white space character, `(` and the marker. */
  predicate ReleaseAt(line: string, p: nat, n: nat, marker: char)
  {
    p + n + 4 <= |line| && n >= 1 && line[p] == '>' && AllIn(line, p + 1, p + 1 + n, IsVersionChar)
    && IsWhitespace(line[p + 1 + n]) && line[p + 2 + n] == '(' && line[p + 3 + n] == marker
  }

  /** A successful `exec`: where the match starts, where it ends (the new `lastIndex`) and the
      `release` group. */
  datatype ReleaseMatch = ReleaseMatch(start: nat, end: nat, release: string)

  /** The match at offset `p`, if any. White space is not a version character, so a match can
      take only the whole run of version characters after `>`. */
  function MatchReleaseAt(line: string, p: nat, marker: char): (r: Option<ReleaseMatch>)
    ensures r.Some? ==>
              && r.value.start == p && ReleaseAt(line, p, |r.value.release|, marker)
              && r.value.end == p + |r.value.release| + 4
              && r.value.release == line[p + 1..p + 1 + |r.value.release|]
    ensures r.None? ==> forall n :: !ReleaseAt(line, p, n, marker)
  {
    if p < |line| && line[p] == '>' then
      var n := Run(line, p + 1, IsVersionChar);
      if ReleaseAt(line, p, n, marker) then Some(ReleaseMatch(p, p + n + 4, line[p + 1..p + 1 + n]))
      else None
    else None
  }

  /** `exec` of a release pattern on `line` from `lastIndex == from`: the first offset at or
      after `from` where the pattern matches. */
  function ExecRelease(line: string, from: nat, marker: char): (r: Option<ReleaseMatch>)
    ensures r.Some? ==>
              && from <= r.value.start && ReleaseAt(line, r.value.start, |r.value.release|, marker)
              && r.value.end == r.value.start + |r.value.release| + 4
    decreases |line| - from
  {
    if from >= |line| then None
    else
      match MatchReleaseAt(line, from, marker)
      case Some(m) => Some(m)
      case None => ExecRelease(line, from + 1, marker)
  }

  /** `exec` finds the leftmost match at or after `from`. */
  lemma {:induction false} ExecReleaseLeftmost(line: string, from: nat, marker: char)
    requires ExecRelease(line, from, marker).Some?
    ensures var m := ExecRelease(line, from, marker).value;
      && from <= m.start && ReleaseAt(line, m.start, |m.release|, marker)
      && m.end == m.start + |m.release| + 4
      && m.release == line[m.start + 1..m.start + 1 + |m.release|]
      && forall q, n :: from <= q < m.start ==> !ReleaseAt(line, q, n, marker)
    decreases |line| - from
  {
    if MatchReleaseAt(line, from, marker).None? {
      ExecReleaseLeftmost(line, from + 1, marker);
    }
  }

  /** `exec` fails only when the pattern matches nowhere at or after `from`. */
  lemma {:induction false} ExecReleaseMissed(line: string, from: nat, marker: char)
    requires ExecRelease(line, from, marker).None?
    ensures forall q, n :: from <= q ==> !ReleaseAt(line, q, n, marker)
    decreases |line| - from
  {
    if from < |line| {
      ExecReleaseMissed(line, from + 1, marker);
    }
  }

  /** What one release pattern carries between lines: the channel's version and the pattern's
      `lastIndex`. */
  datatype ScanState = ScanState(version: string, lastIndex: nat)

  /** One `exec` on a line and the assignment `getReleases` makes when it succeeds. A failed
      `exec` resets `lastIndex` to 0 and keeps the version. */
  function Step(st: ScanState, line: string, marker: char): (r: ScanState)
    ensures r.lastIndex == 0 ==> r.version == st.version
    ensures r.lastIndex != 0 ==>
              && st.lastIndex < r.lastIndex <= |line| && |r.version| + 4 <= r.lastIndex
              && ReleaseAt(line, r.lastIndex - |r.version| - 4, |r.version|, marker)
  {
    match ExecRelease(line, st.lastIndex, marker)
    case Some(m) => ScanState(m.release, m.end)
    case None => ScanState(st.version, 0)
  }

  /** `getReleases` applied to every line in turn, for one pattern. */
  function Scan(st: ScanState, lines: seq<string>, marker: char): (r: ScanState)
    ensures lines != [] ==> r.lastIndex <= |lines[|lines| - 1]|
    decreases |lines|
  {
    if lines == [] then st
    else Step(Scan(st, lines[..|lines| - 1], marker), lines[|lines| - 1], marker)
  }

  /** The pattern succeeds on line `k` of a scan that started in `st`. */
  predicate HitsAt(st: ScanState, lines: seq<string>, marker: char, k: nat)
    requires k < |lines|
  {
    ExecRelease(lines[k], Scan(st, lines[..k], marker).lastIndex, marker).Some?
  }

  /** Scanning a longer list of lines runs through the same states on the common prefix. */
  lemma ScanPrefix(st: ScanState, lines: seq<string>, marker: char, k: nat)
    requires k < |lines|
    ensures k < |lines| - 1 ==> HitsAt(st, lines, marker, k) == HitsAt(st, lines[..|lines| - 1], marker, k)
  {
    if k < |lines| - 1 {
      assert lines[..|lines| - 1][..k] == lines[..k];
    }
  }

  /** When the pattern succeeds on no line, the version from before the scan survives, even
      one found on an earlier tick. */
  lemma {:induction false} NoHitKeepsVersion(st: ScanState, lines: seq<string>, marker: char)
    requires forall k :: 0 <= k < |lines| ==> !HitsAt(st, lines, marker, k)
    ensures Scan(st, lines, marker).version == st.version
    decreases |lines|
  {
    if lines != [] {
      var n := |lines|;
      var init := lines[..n - 1];
      forall k | 0 <= k < n - 1
        ensures !HitsAt(st, init, marker, k)
      {
        assert init[..k] == lines[..k] && init[k] == lines[k];
        assert !HitsAt(st, lines, marker, k);
      }
      NoHitKeepsVersion(st, init, marker);
      var before := Scan(st, init, marker);
      assert lines[..n - 1] == init;
      assert !HitsAt(st, lines, marker, n - 1);
      assert ExecRelease(lines[n - 1], before.lastIndex, marker).None?;
      assert Scan(st, lines, marker) == Step(before, lines[n - 1], marker);
    }
  }

  /** The version after a scan is the `release` group captured on the last line where the
      pattern succeeded. */
  lemma {:induction false} LastHitWins(st: ScanState, lines: seq<string>, marker: char, k: nat)
    requires k < |lines| && HitsAt(st, lines, marker, k)
    requires forall j :: k < j < |lines| ==> !HitsAt(st, lines, marker, j)
    ensures Scan(st, lines, marker).version
            == ExecRelease(lines[k], Scan(st, lines[..k], marker).lastIndex, marker).value.release
    decreases |lines|
  {
    var n := |lines|;
    var init := lines[..n - 1];
    LastStep(st, lines, marker);
    if k < n - 1 {
      NoLaterHits(st, lines, init, marker, k);
      ScanPrefix(st, lines, marker, k);
      LastHitWins(st, init, marker, k);
      assert init[..k] == lines[..k] && init[k] == lines[k];
    }
  }

  /** A scan ends with one step on its last line. */
  lemma LastStep(st: ScanState, lines: seq<string>, marker: char)
    requires lines != []
    ensures var init := lines[..|lines| - 1];
      Scan(st, lines, marker) == Step(Scan(st, init, marker), lines[|lines| - 1], marker)
      && (HitsAt(st, lines, marker, |lines| - 1)
          <==> ExecRelease(lines[|lines| - 1], Scan(st, init, marker).lastIndex, marker).Some?)
  {
    assert lines[..|lines| - 1] == lines[..|lines| - 1];
  }

  /** Lines after `k` without a hit stay without one when the last line is dropped. */
  lemma NoLaterHits(st: ScanState, lines: seq<string>, init: seq<string>, marker: char, k: nat)
    requires k < |lines| - 1 && init == lines[..|lines| - 1]
    requires forall j :: k < j < |lines| ==> !HitsAt(st, lines, marker, j)
    ensures forall j :: k < j < |init| ==> !HitsAt(st, init, marker, j)
  {
    forall j | k < j < |init|
      ensures !HitsAt(st, init, marker, j)
    {
      ScanPrefix(st, lines, marker, j);
    }
  }

  /** One `getReleases` call: each of the four patterns `exec`-ed on the line. */
  function StepAll(st: PerChannel<ScanState>, line: string): (r: PerChannel<ScanState>)
  {
    PerChannel(Step(st.longterm, line, 'L'), Step(st.stable, line, 'S'),
               Step(st.testing, line, 'T'), Step(st.development, line, 'D'))
  }

  /** The four scans run side by side: `getReleases` on every line. */
  function ScanAll(st: PerChannel<ScanState>, lines: seq<string>): (r: PerChannel<ScanState>)
    ensures forall c :: r.Get(c) == Scan(st.Get(c), lines, Marker(c))
    decreases |lines|
  {
    if lines == [] then st
    else StepAll(ScanAll(st, lines[..|lines| - 1]), lines[|lines| - 1])
  }

  /** The scan state of a program that has not run yet: no versions, every `lastIndex` 0. */
  const Initial := ScanState("", 0)

  /** Two tables that agree on every channel are the same. */
  lemma SameEverywhere<T>(a: PerChannel<T>, b: PerChannel<T>)
    requires forall c :: a.Get(c) == b.Get(c)
    ensures a == b
  {
    assert a.Get(LongTerm) == b.Get(LongTerm) && a.Get(Stable) == b.Get(Stable);
    assert a.Get(Testing) == b.Get(Testing) && a.Get(Development) == b.Get(Development);
  }

  /** A pattern whose marker letter is nowhere in the line fails on it. */
  lemma NoMarkerNoMatch(line: string, from: nat, marker: char)
    requires marker !in line
    ensures ExecRelease(line, from, marker).None?
  {
    if ExecRelease(line, from, marker).Some? {
      ExecReleaseLeftmost(line, from, marker);
    }
  }

  /** A line that is a release line from its first character: the match covers it. */
  lemma ReleaseLineMatches(version: string, marker: char)
    requires |version| >= 1 && forall i :: 0 <= i < |version| ==> IsVersionChar(version[i])
    ensures ExecRelease(">" + version + " (" + [marker], 0, marker)
            == Some(ReleaseMatch(0, |version| + 4, version))
  {
    var line := ">" + version + " (" + [marker];
    RunIsMaximal(line, 1, |version|, IsVersionChar);
    assert line[1..1 + |version|] == version;
  }

  /** A scan of two lines is two steps. */
  lemma ScanTwo(st: ScanState, a: string, b: string, marker: char)
    ensures Scan(st, [a, b], marker) == Step(Step(st, a, marker), b, marker)
  {
    var lines := [a, b];
    assert lines[..1] == [a];
    assert [a][..0] == [];
    assert Scan(st, [a], marker) == Step(Scan(st, [], marker), a, marker);
    assert Scan(st, lines, marker) == Step(Scan(st, [a], marker), b, marker);
  }

  const ExampleLines := [">7.15.3 (L", ">7.14.2 (S"]

  lemma ExampleLongTerm()
    ensures Scan(Initial, ExampleLines, 'L').version == "7.15.3"
  {
    var a, b := ExampleLines[0], ExampleLines[1];
    ReleaseLineMatches("7.15.3", 'L');
    assert ">" + "7.15.3" + " (" + ['L'] == a;
    ScanTwo(Initial, a, b, 'L');
    assert Step(Initial, a, 'L') == ScanState("7.15.3", 10);
    assert ExecRelease(b, 10, 'L').None?;
  }

  lemma ExampleStable()
    ensures Scan(Initial, ExampleLines, 'S').version == "7.14.2"
  {
    var a, b := ExampleLines[0], ExampleLines[1];
    ReleaseLineMatches("7.14.2", 'S');
    assert ">" + "7.14.2" + " (" + ['S'] == b;
    NoMarkerNoMatch(a, 0, 'S');
    ScanTwo(Initial, a, b, 'S');
    assert Step(Initial, a, 'S') == Initial;
  }

  lemma ExampleAbsent(marker: char)
    requires marker == 'T' || marker == 'D'
    ensures Scan(Initial, ExampleLines, marker).version == ""
  {
    var a, b := ExampleLines[0], ExampleLines[1];
    NoMarkerNoMatch(a, 0, marker);
    NoMarkerNoMatch(b, 0, marker);
    ScanTwo(Initial, a, b, marker);
    assert Step(Initial, a, marker) == Initial;
  }

  /** Two release lines, a long-term and a stable one, give those two versions and nothing for
      the other channels. */
  lemma ExtractExample()
    ensures Scan(Initial, ExampleLines, 'L').version == "7.15.3"
    ensures Scan(Initial, ExampleLines, 'S').version == "7.14.2"
    ensures Scan(Initial, ExampleLines, 'T').version == ""
    ensures Scan(Initial, ExampleLines, 'D').version == ""
  {
    ExampleLongTerm();
    ExampleStable();
    ExampleAbsent('T');
    ExampleAbsent('D');
  }

  /** The carried `lastIndex` hides a match: after the first line matched up to its end, the
      second line is searched only from offset 10, misses the release at its start, and the
      offset falls back to 0. */
  lemma CarriedOffsetHidesMatch()
    ensures Scan(Initial, [">7.15.3 (L", ">7.15.4 (L"], 'L') == ScanState("7.15.3", 0)
  {
    var a, b := ">7.15.3 (L", ">7.15.4 (L";
    ReleaseLineMatches("7.15.3", 'L');
    assert ">" + "7.15.3" + " (" + ['L'] == a;
    ScanTwo(Initial, a, b, 'L');
    assert Step(Initial, a, 'L') == ScanState("7.15.3", 10);
  }
}
