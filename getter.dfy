/** The state the program keeps between ticks and the tick handler (main.js:106-139,
    main.js:213-230, main.js:409-466): the `releases` table with one record per channel, the
    `lastIndex` of the four module-level release patterns, and the handler that runs when the
    listing page has arrived. */
module Getter {
  import opened Text
  import opened Listing
  import opened Releases
  import opened Urls
  import opened FileObjects
  import opened Fetch
  import opened Manifest
  import opened Changelog

  /** One record of the `releases` table. The `sha256` array of the record is never used and is
      left out. */
  datatype Release = Release(version: string, rawurls: seq<string>, urls: seq<string>, objs: seq<FileObject>)

  const NoRelease := Release("", [], [], [])

  /** What the handler is given besides the page: `appConfig.downloadPath`, the downloads, which
      paths a synchronous write succeeds on, the answer to each changelog request of the tick
      (`feeds(j)` answers the `j`-th, `None` when the feed does not arrive) and the
      HTML-to-Markdown translation. */
  datatype Env = Env(
    downloadPath: string, fetcher: Fetcher, writable: string -> bool,
    feeds: nat -> Option<seq<FeedItem>>, translate: string -> string)

  /** The records with the versions the release scans hold. */
  function WithVersions(recs: PerChannel<Release>, st: PerChannel<ScanState>): (r: PerChannel<Release>)
    ensures forall c :: r.Get(c) == recs.Get(c).(version := st.Get(c).version)
  {
    PerChannel(recs.longterm.(version := st.longterm.version), recs.stable.(version := st.stable.version),
               recs.testing.(version := st.testing.version),
               recs.development.(version := st.development.version))
  }

  /** What the handler has done after some channels: the table, the file system as the
      synchronous writes left it, the downloads queued and the releases whose changelog was
      requested, in order. */
  datatype Pass = Pass(
    releases: PerChannel<Release>, fs: FileSystem, downloads: seq<Write>, changelogs: seq<string>)

  /** `createSumsFile` as a change of the file system. */
  function SumsWritten(fs: FileSystem, dir: string, objs: seq<FileObject>, writable: string -> bool): FileSystem
  {
    var path := dir + SumsName;
    if writable(path) then fs[path := Chars(ManifestText(objs))] else fs
  }

  /** The body of the handler's loop for one channel. A channel without a version is skipped.
      Otherwise its links are pushed onto `rawurls`, `urls` becomes them without duplicates and
      sorted, `objs` is rebuilt from `urls`, every object is given its path and state and its
      download queued, the manifest is written and the changelog requested. */
  function WorkOn(p: Pass, c: Channel, lines: seq<string>, rawPage: seq<string>, env: Env): Pass
  {
    var rel := p.releases.Get(c);
    if rel.version == "" then p
    else
      var dir := Directory(env.downloadPath, rel.version);
      var raw := rel.rawurls + ScanLinks(lines, rel.version).urls;
      var urls := UniqueSorted(raw);
      var batch := FetchBatch(Built(urls, rawPage), dir, p.fs, env.fetcher);
      Pass(p.releases.Set(c, Release(rel.version, raw, urls, batch.items)),
           SumsWritten(p.fs, dir, batch.items, env.writable),
           p.downloads + batch.writes, p.changelogs + [rel.version])
  }

  /** The handler's loop over the channels `cs`, in order. */
  function WorkOnAll(p: Pass, cs: seq<Channel>, lines: seq<string>, rawPage: seq<string>, env: Env): Pass
    decreases |cs|
  {
    if cs == [] then p
    else WorkOn(WorkOnAll(p, cs[..|cs| - 1], lines, rawPage, env), cs[|cs| - 1], lines, rawPage, env)
  }

  /** The file system once a changelog has been written for each release, in order, the
      `j`-th from the answer to the `j`-th request. */
  function WithChangelogs(fs: FileSystem, versions: seq<string>, env: Env): FileSystem
    decreases |versions|
  {
    if versions == [] then fs
    else
      var before := WithChangelogs(fs, versions[..|versions| - 1], env);
      var version := versions[|versions| - 1];
      var feed := env.feeds(|versions| - 1);
      var path := Directory(env.downloadPath, version) + ChangelogName;
      if feed.Some? && env.writable(path)
      then before[path := Chars(env.translate(ChangelogOf(feed.value, version)))]
      else before
  }

  /** What a channel's record is after the handler worked on it, whatever the file system held:
      the old record's version, its links followed by those found on the page, the links without
      duplicates in ascending order, and one object per link, in that order, with the link's
      file name, the digest scraped for it and its path in the release directory. */
  predicate Refreshed(r: Release, rel: Release, lines: seq<string>, rawPage: seq<string>, downloadPath: string)
  {
    && r.version == rel.version
    && r.rawurls == rel.rawurls + ScanLinks(lines, rel.version).urls
    && r.urls == UniqueSorted(r.rawurls)
    && |r.objs| == |r.urls|
    && forall i :: 0 <= i < |r.urls| ==>
      && r.objs[i].url == r.urls[i] && r.objs[i].filename == FileName(r.urls[i])
      && r.objs[i].sha256 == ScrapedDigest(rawPage, FileName(r.urls[i]))
      && r.objs[i].filepath == Directory(downloadPath, rel.version) + FileName(r.urls[i])
  }

  /** Working on a channel refreshes its record. */
  lemma WorkOnRefreshes(p: Pass, c: Channel, lines: seq<string>, rawPage: seq<string>, env: Env)
    requires p.releases.Get(c).version != ""
    ensures Refreshed(WorkOn(p, c, lines, rawPage, env).releases.Get(c), p.releases.Get(c), lines, rawPage, env.downloadPath)
  {
    var rel := p.releases.Get(c);
    var dir := Directory(env.downloadPath, rel.version);
    var urls := UniqueSorted(rel.rawurls + ScanLinks(lines, rel.version).urls);
    BatchItems(Built(urls, rawPage), dir, p.fs, env.fetcher);
  }

  /** Working on a channel changes no version and no other channel's record. */
  lemma WorkOnOthers(p: Pass, d: Channel, lines: seq<string>, rawPage: seq<string>, env: Env, c: Channel)
    ensures WorkOn(p, d, lines, rawPage, env).releases.Get(c).version == p.releases.Get(c).version
    ensures d != c ==> WorkOn(p, d, lines, rawPage, env).releases.Get(c) == p.releases.Get(c)
  {
  }

  /** Working on a channel that has a version writes the manifest of the objects built from its
      links, digests as scraped, to the release directory when that write succeeds and changes
      no other file; it queues the downloads of its objects after those already queued and
      requests its changelog. */
  lemma WorkOnWritesManifest(p: Pass, c: Channel, lines: seq<string>, rawPage: seq<string>, env: Env)
    requires p.releases.Get(c).version != ""
    ensures var q := WorkOn(p, c, lines, rawPage, env);
      var rel := p.releases.Get(c);
      var dir := Directory(env.downloadPath, rel.version);
      var path := dir + SumsName;
      var objs := Built(UniqueSorted(rel.rawurls + ScanLinks(lines, rel.version).urls), rawPage);
      && (env.writable(path) ==> q.fs == p.fs[path := Chars(ManifestText(objs))])
      && (!env.writable(path) ==> q.fs == p.fs)
      && q.downloads == p.downloads + FetchBatch(objs, dir, p.fs, env.fetcher).writes
      && q.changelogs == p.changelogs + [rel.version]
  {
    var rel := p.releases.Get(c);
    var dir := Directory(env.downloadPath, rel.version);
    var raw := rel.rawurls + ScanLinks(lines, rel.version).urls;
    var objs := Built(UniqueSorted(raw), rawPage);
    var batch := FetchBatch(objs, dir, p.fs, env.fetcher);
    var q := WorkOn(p, c, lines, rawPage, env);
    assert q.fs == SumsWritten(p.fs, dir, batch.items, env.writable);
    assert q.downloads == p.downloads + batch.writes;
    ManifestIgnoresFetch(objs, dir, p.fs, env.fetcher);
  }

  /** A channel without a version is skipped entirely: no record, file, download or changelog
      request changes. */
  lemma EmptyVersionSkipped(p: Pass, c: Channel, lines: seq<string>, rawPage: seq<string>, env: Env)
    requires p.releases.Get(c).version == ""
    ensures WorkOn(p, c, lines, rawPage, env) == p
  {
  }

  /** When no channel has a version, the loop over the channels does nothing at all. */
  lemma {:induction false} NothingToWorkOn(p: Pass, cs: seq<Channel>, lines: seq<string>, rawPage: seq<string>, env: Env)
    requires forall c :: p.releases.Get(c).version == ""
    ensures WorkOnAll(p, cs, lines, rawPage, env) == p
    decreases |cs|
  {
    if cs != [] {
      NothingToWorkOn(p, cs[..|cs| - 1], lines, rawPage, env);
      EmptyVersionSkipped(p, cs[|cs| - 1], lines, rawPage, env);
    }
  }

  /** A tick on which no channel has a version leaves the file system as it was: no manifest,
      no download and no changelog is written. */
  lemma NothingFoundNothingWritten(r: PerChannel<Release>, fs: FileSystem, lines: seq<string>, rawPage: seq<string>, env: Env)
    requires forall c :: r.Get(c).version == ""
    ensures var q := WorkOnAll(Pass(r, fs, [], []), Channels, lines, rawPage, env);
      q.releases == r && WithChangelogs(Apply(q.fs, q.downloads), q.changelogs, env) == fs
  {
    NothingToWorkOn(Pass(r, fs, [], []), Channels, lines, rawPage, env);
  }

  /** The manifest depends only on the digests and file names, which fetching leaves alone: it
      lists the digests scraped from the page, whatever the downloads did. */
  lemma {:induction false} ManifestIgnoresFetch(objs: seq<FileObject>, dir: string, fs: FileSystem, f: Fetcher)
    ensures ManifestText(FetchBatch(objs, dir, fs, f).items) == ManifestText(objs)
  {
    var items := FetchBatch(objs, dir, fs, f).items;
    BatchItems(objs, dir, fs, f);
    ManifestLinesAgree(items, objs);
  }

  lemma {:induction false} ManifestLinesAgree(a: seq<FileObject>, b: seq<FileObject>)
    requires |a| == |b|
    requires forall i :: 0 <= i < |a| ==> a[i].sha256 == b[i].sha256 && a[i].filename == b[i].filename
    ensures ManifestLines(a) == ManifestLines(b)
  {
    var la := ManifestLines(a);
    var lb := ManifestLines(b);
    assert forall i :: 0 <= i < |la| ==> la[i] == ManifestLine(a[i]) == ManifestLine(b[i]) == lb[i];
  }

  /** A channel without a version is left exactly as it was by the whole loop. */
  lemma {:induction false} NoVersionUntouched(p: Pass, cs: seq<Channel>, lines: seq<string>, rawPage: seq<string>, env: Env, c: Channel)
    requires p.releases.Get(c).version == ""
    ensures WorkOnAll(p, cs, lines, rawPage, env).releases.Get(c) == p.releases.Get(c)
    decreases |cs|
  {
    if cs != [] {
      NoVersionUntouched(p, cs[..|cs| - 1], lines, rawPage, env, c);
    }
  }

  /** Working on one channel only appends to any channel's `rawurls`. */
  lemma WorkOnAppends(p: Pass, d: Channel, lines: seq<string>, rawPage: seq<string>, env: Env, c: Channel)
    ensures var m := p.releases.Get(c).rawurls;
      var grown := WorkOn(p, d, lines, rawPage, env).releases.Get(c).rawurls;
      |m| <= |grown| && grown[..|m|] == m
  {
    var rel := p.releases.Get(d);
    WorkOnOthers(p, d, lines, rawPage, env, c);
    if rel.version != "" {
      if d == c {
        WorkOnRefreshes(p, d, lines, rawPage, env);
        var m := rel.rawurls;
        assert (m + ScanLinks(lines, rel.version).urls)[..|m|] == m;
      }
    }
  }

  /** Links are only ever appended: every channel's `rawurls` before the loop is a prefix of its
      `rawurls` after it. */
  lemma {:induction false} RawUrlsGrow(p: Pass, cs: seq<Channel>, lines: seq<string>, rawPage: seq<string>, env: Env, c: Channel)
    ensures var after := WorkOnAll(p, cs, lines, rawPage, env).releases.Get(c);
      && |p.releases.Get(c).rawurls| <= |after.rawurls|
      && after.rawurls[..|p.releases.Get(c).rawurls|] == p.releases.Get(c).rawurls
    decreases |cs|
  {
    if cs != [] {
      var init := cs[..|cs| - 1];
      RawUrlsGrow(p, init, lines, rawPage, env, c);
      var mid := WorkOnAll(p, init, lines, rawPage, env);
      WorkOnAppends(mid, cs[|cs| - 1], lines, rawPage, env, c);
      var before := p.releases.Get(c).rawurls;
      var m := mid.releases.Get(c).rawurls;
      var grown := WorkOnAll(p, cs, lines, rawPage, env).releases.Get(c).rawurls;
      assert grown[..|before|] == grown[..|m|][..|before|];
    }
  }

  /** The versions keep their place: the loop changes no channel's version. */
  lemma {:induction false} VersionsKept(p: Pass, cs: seq<Channel>, lines: seq<string>, rawPage: seq<string>, env: Env, c: Channel)
    ensures WorkOnAll(p, cs, lines, rawPage, env).releases.Get(c).version == p.releases.Get(c).version
    decreases |cs|
  {
    if cs != [] {
      var init := cs[..|cs| - 1];
      VersionsKept(p, init, lines, rawPage, env, c);
      var mid := WorkOnAll(p, init, lines, rawPage, env);
      WorkOnOthers(mid, cs[|cs| - 1], lines, rawPage, env, c);
    }
  }

  /** After a loop over channels that visits each at most once, each visited channel that had
      a version has been refreshed from its record before the loop. */
  lemma {:induction false} RefreshedOnce(p: Pass, cs: seq<Channel>, lines: seq<string>, rawPage: seq<string>, env: Env, c: Channel)
    requires p.releases.Get(c).version != "" && c in cs
    requires forall i, j :: 0 <= i < j < |cs| ==> cs[i] != cs[j]
    ensures Refreshed(WorkOnAll(p, cs, lines, rawPage, env).releases.Get(c), p.releases.Get(c), lines, rawPage, env.downloadPath)
    decreases |cs|
  {
    var init := cs[..|cs| - 1];
    var d := cs[|cs| - 1];
    DropLast(cs, c);
    if d == c {
      RefreshedLast(p, init, lines, rawPage, env, c);
    } else {
      RefreshedOnce(p, init, lines, rawPage, env, c);
      RefreshedKept(WorkOnAll(p, init, lines, rawPage, env), d, lines, rawPage, env, c, p.releases.Get(c));
    }
  }

  /** A channel worked on after channels other than itself is refreshed from its first record. */
  lemma RefreshedLast(p: Pass, init: seq<Channel>, lines: seq<string>, rawPage: seq<string>, env: Env, c: Channel)
    requires p.releases.Get(c).version != "" && c !in init
    ensures Refreshed(WorkOn(WorkOnAll(p, init, lines, rawPage, env), c, lines, rawPage, env).releases.Get(c),
                      p.releases.Get(c), lines, rawPage, env.downloadPath)
  {
    ChannelsBefore(p, init, lines, rawPage, env, c);
    WorkOnRefreshes(WorkOnAll(p, init, lines, rawPage, env), c, lines, rawPage, env);
  }

  /** Working on another channel keeps a refreshed record refreshed. */
  lemma RefreshedKept(p: Pass, d: Channel, lines: seq<string>, rawPage: seq<string>, env: Env, c: Channel, rel: Release)
    requires d != c && Refreshed(p.releases.Get(c), rel, lines, rawPage, env.downloadPath)
    ensures Refreshed(WorkOn(p, d, lines, rawPage, env).releases.Get(c), rel, lines, rawPage, env.downloadPath)
  {
    WorkOnOthers(p, d, lines, rawPage, env, c);
  }

  /** Without its last channel, a list without repeats still has none, and holds `c` iff the
      last channel is not `c`. */
  lemma DropLast(cs: seq<Channel>, c: Channel)
    requires c in cs
    requires forall i, j :: 0 <= i < j < |cs| ==> cs[i] != cs[j]
    ensures var init := cs[..|cs| - 1];
      && (forall i, j :: 0 <= i < j < |init| ==> init[i] != init[j])
      && (c in init <==> cs[|cs| - 1] != c)
  {
    var n := |cs|;
    var init := cs[..n - 1];
    if cs[n - 1] == c {
      forall i | 0 <= i < n - 1 ensures init[i] != c {
        assert init[i] == cs[i];
      }
    } else {
      var i :| 0 <= i < n && cs[i] == c;
      assert init[i] == cs[i];
    }
  }

  /** After the loop over the four channels, each channel that has a version has been refreshed
      from its record before the loop, and each one without keeps its record. */
  lemma EveryReleaseRefreshed(p: Pass, lines: seq<string>, rawPage: seq<string>, env: Env, c: Channel)
    ensures var after := WorkOnAll(p, Channels, lines, rawPage, env).releases.Get(c);
      && (p.releases.Get(c).version != "" ==> Refreshed(after, p.releases.Get(c), lines, rawPage, env.downloadPath))
      && (p.releases.Get(c).version == "" ==> after == p.releases.Get(c))
  {
    if p.releases.Get(c).version == "" {
      NoVersionUntouched(p, Channels, lines, rawPage, env, c);
    } else {
      assert c in Channels by {
        match c
        case LongTerm => assert Channels[0] == c;
        case Stable => assert Channels[1] == c;
        case Testing => assert Channels[2] == c;
        case Development => assert Channels[3] == c;
      }
      RefreshedOnce(p, Channels, lines, rawPage, env, c);
    }
  }

  /** Channels other than `c` leave `c`'s record alone. */
  lemma {:induction false} ChannelsBefore(p: Pass, cs: seq<Channel>, lines: seq<string>, rawPage: seq<string>, env: Env, c: Channel)
    requires c !in cs
    ensures WorkOnAll(p, cs, lines, rawPage, env).releases.Get(c) == p.releases.Get(c)
    decreases |cs|
  {
    if cs != [] {
      var init := cs[..|cs| - 1];
      assert c !in init;
      ChannelsBefore(p, init, lines, rawPage, env, c);
      var mid := WorkOnAll(p, init, lines, rawPage, env);
      WorkOnOthers(mid, cs[|cs| - 1], lines, rawPage, env, c);
    }
  }

  /** Working on a channel from a pass that has already queued downloads and changelog
      requests adds to them what working on it from an empty queue would make. */
  lemma WorkOnQueues(r: PerChannel<Release>, fs: FileSystem, downloads: seq<Write>, queued: seq<string>,
                     c: Channel, lines: seq<string>, rawPage: seq<string>, env: Env)
    ensures var q := WorkOn(Pass(r, fs, [], []), c, lines, rawPage, env);
      WorkOn(Pass(r, fs, downloads, queued), c, lines, rawPage, env)
      == Pass(q.releases, q.fs, downloads + q.downloads, queued + q.changelogs)
  {
    var rel := r.Get(c);
    if rel.version == "" {
      assert downloads + [] == downloads && queued + [] == queued;
    } else {
      var dir := Directory(env.downloadPath, rel.version);
      var raw := rel.rawurls + ScanLinks(lines, rel.version).urls;
      var urls := UniqueSorted(raw);
      var batch := FetchBatch(Built(urls, rawPage), dir, fs, env.fetcher);
      var next := Release(rel.version, raw, urls, batch.items);
      var sums := SumsWritten(fs, dir, batch.items, env.writable);
      assert WorkOn(Pass(r, fs, [], []), c, lines, rawPage, env)
             == Pass(r.Set(c, next), sums, [] + batch.writes, [] + [rel.version]);
      assert [] + batch.writes == batch.writes && [] + [rel.version] == [rel.version];
    }
  }

  /** The program's state: the `releases` table and the `lastIndex` of the four module-level
      release patterns. */
  class ReleaseGetter {
    var releases: PerChannel<Release>
    var lastIndex: PerChannel<nat>

    /** The state the program starts in: every record empty, every `lastIndex` 0. */
    constructor()
      ensures releases == PerChannel(NoRelease, NoRelease, NoRelease, NoRelease)
      ensures lastIndex == PerChannel(0, 0, 0, 0)
    {
      releases := PerChannel(NoRelease, NoRelease, NoRelease, NoRelease);
      lastIndex := PerChannel(0, 0, 0, 0);
    }

    /** What the release scans carry for each channel: its version and its pattern's
        `lastIndex`. */
    function Extracted(): (r: PerChannel<ScanState>)
      reads this
      ensures forall c :: r.Get(c) == ScanState(releases.Get(c).version, lastIndex.Get(c))
    {
      PerChannel(ScanState(releases.longterm.version, lastIndex.longterm),
                 ScanState(releases.stable.version, lastIndex.stable),
                 ScanState(releases.testing.version, lastIndex.testing),
                 ScanState(releases.development.version, lastIndex.development))
    }

    /** One of the four blocks of `getReleases`: `exec` the channel's pattern from its
        `lastIndex` and, on a match, take the `release` group as the channel's version. */
    method ExecPattern(c: Channel, line: string)
      modifies this
      ensures Extracted() == old(Extracted()).Set(c, Step(old(Extracted()).Get(c), line, Marker(c)))
      ensures releases == WithVersions(old(releases), Extracted())
    {
      var reExec := ExecRelease(line, lastIndex.Get(c), Marker(c));
      if reExec.Some? {
        releases := releases.Set(c, releases.Get(c).(version := reExec.value.release));
        lastIndex := lastIndex.Set(c, reExec.value.end);
      } else {
        lastIndex := lastIndex.Set(c, 0);
      }
    }

    /** `getReleases(line)`: the four patterns in turn. */
    method GetReleases(line: string)
      modifies this
      ensures Extracted() == StepAll(old(Extracted()), line)
      ensures releases == WithVersions(old(releases), Extracted())
    {
      ExecPattern(LongTerm, line);
      ExecPattern(Stable, line);
      ExecPattern(Testing, line);
      ExecPattern(Development, line);
    }

    /** The handler's loop body for one channel that has a version. */
    method WorkOnRelease(c: Channel, lines: seq<string>, rawPage: seq<string>, env: Env, fs: FileSystem)
      returns (fs': FileSystem, writes: seq<Write>)
      requires releases.Get(c).version != ""
      modifies this
      ensures lastIndex == old(lastIndex)
      ensures var q := WorkOn(Pass(old(releases), fs, [], []), c, lines, rawPage, env);
        releases == q.releases && fs' == q.fs && writes == q.downloads
    {
      var rel := releases.Get(c).(objs := []);
      releases := releases.Set(c, rel);
      var dir := env.downloadPath + "/" + rel.version + "/";
      var raw := CollectLinks(rel.rawurls, lines, rel.version);
      rel := rel.(rawurls := raw);
      rel := rel.(urls := UniqueSorted(rel.rawurls));
      var objs := BuildFileObjects(rel.urls, rawPage);
      var items;
      items, writes := FetchAll(objs, dir, fs, env.fetcher);
      rel := rel.(objs := items);
      releases := releases.Set(c, rel);
      fs' := CreateSumsFile(rel.objs, dir, fs, env.writable);
    }

    /** `contentData.forEach(getReleases)`. */
    method ScanListing(contentData: seq<string>)
      modifies this
      ensures Extracted() == ScanAll(old(Extracted()), contentData)
      ensures releases == WithVersions(old(releases), Extracted())
    {
      var i := 0;
      while i < |contentData|
        invariant 0 <= i <= |contentData|
        invariant Extracted() == ScanAll(old(Extracted()), contentData[..i])
        invariant releases == WithVersions(old(releases), Extracted())
      {
        assert contentData[..i + 1][..i] == contentData[..i];
        GetReleases(contentData[i]);
        i := i + 1;
      }
      assert contentData[..i] == contentData;
    }

    /** The loop over the channels, in the order of the table. */
    method WorkOnChannels(lines: seq<string>, rawPage: seq<string>, env: Env, fs: FileSystem)
      returns (sync: FileSystem, downloads: seq<Write>, queued: seq<string>)
      modifies this
      ensures lastIndex == old(lastIndex)
      ensures Pass(releases, sync, downloads, queued)
              == WorkOnAll(Pass(old(releases), fs, [], []), Channels, lines, rawPage, env)
    {
      ghost var start := Pass(releases, fs, [], []);
      sync := fs;
      downloads := [];
      queued := [];
      var k := 0;
      while k < |Channels|
        invariant 0 <= k <= |Channels| && lastIndex == old(lastIndex)
        invariant Pass(releases, sync, downloads, queued) == WorkOnAll(start, Channels[..k], lines, rawPage, env)
      {
        assert Channels[..k + 1][..k] == Channels[..k];
        var c := Channels[k];
        assert WorkOnAll(start, Channels[..k + 1], lines, rawPage, env)
          == WorkOn(WorkOnAll(start, Channels[..k], lines, rawPage, env), c, lines, rawPage, env);
        if releases.Get(c).version != "" {
          var version := releases.Get(c).version;
          WorkOnQueues(releases, sync, downloads, queued, c, lines, rawPage, env);
          var writes;
          sync, writes := WorkOnRelease(c, lines, rawPage, env, sync);
          downloads := downloads + writes;
          queued := queued + [version];
        }
        k := k + 1;
      }
      assert Channels[..k] == Channels;
    }

    /** The handler run when the listing page has arrived: the page is cut into lines and every
        line given to `getReleases`; then each channel with a version is worked on, in order.
        The existence checks see the file system as the synchronous manifest writes leave it;
        the downloads land once the handler is done, in the order they were issued, and the
        changelogs after them. */
    method OnListing(page: string, env: Env, fs: FileSystem) returns (fs': FileSystem)
      modifies this
      ensures Extracted() == ScanAll(old(Extracted()), ContentLines(page))
      ensures var p := WorkOnAll(Pass(WithVersions(old(releases), Extracted()), fs, [], []),
                                 Channels, ContentLines(page), PageLines(page), env);
        && releases == p.releases
        && fs' == WithChangelogs(Apply(p.fs, p.downloads), p.changelogs, env)
      ensures (forall c :: Extracted().Get(c).version == "") ==> fs' == fs
    {
      var contentData := ContentLines(page);
      ScanListing(contentData);
      ghost var scanned := Extracted();
      ghost var start := Pass(releases, fs, [], []);
      var sync, downloads, queued := WorkOnChannels(contentData, PageLines(page), env, fs);
      forall c ensures Extracted().Get(c) == scanned.Get(c) {
        VersionsKept(start, Channels, contentData, PageLines(page), env, c);
      }
      SameEverywhere(Extracted(), scanned);
      if forall c :: scanned.Get(c).version == "" {
        NothingFoundNothingWritten(start.releases, fs, contentData, PageLines(page), env);
      }
      fs' := WriteChangelogs(Apply(sync, downloads), queued, env);
    }
  }

  /** The link scan of one channel: a fresh pattern `exec`-ed on every line, each link found
      pushed onto `rawurls`. */
  method CollectLinks(rawurls: seq<string>, lines: seq<string>, version: string) returns (raw: seq<string>)
    ensures raw == rawurls + ScanLinks(lines, version).urls
  {
    raw := rawurls;
    var lastIndex: nat := 0;
    var i := 0;
    while i < |lines|
      invariant 0 <= i <= |lines|
      invariant raw == rawurls + ScanLinks(lines[..i], version).urls
      invariant lastIndex == ScanLinks(lines[..i], version).lastIndex
    {
      assert lines[..i + 1][..i] == lines[..i];
      assert ScanLinks(lines[..i + 1], version) == LinkStep(ScanLinks(lines[..i], version), lines[i], version);
      var reExec := ExecLink(lines[i], lastIndex, version);
      if reExec.Some? {
        raw := raw + [reExec.value.url];
        lastIndex := reExec.value.end;
      } else {
        lastIndex := 0;
      }
      i := i + 1;
    }
    assert lines[..i] == lines;
  }

  /** The changelog requests of the tick, answered in the order they were made. */
  method WriteChangelogs(fs: FileSystem, queued: seq<string>, env: Env) returns (fs': FileSystem)
    ensures fs' == WithChangelogs(fs, queued, env)
  {
    fs' := fs;
    var j := 0;
    while j < |queued|
      invariant 0 <= j <= |queued|
      invariant fs' == WithChangelogs(fs, queued[..j], env)
    {
      assert queued[..j + 1][..j] == queued[..j];
      fs' := GetChangelog(queued[j], env.downloadPath, env.feeds(j), env.translate, fs', env.writable);
      j := j + 1;
    }
    assert queued[..j] == queued;
  }
}
