/** The changelog of a release (main.js:364-370, main.js:377-406): the feed's items are tested in
    order against the version, the description of the last item whose title matches is kept, and
    its Markdown translation is written to `CHANGELOG.md` in the release directory. */
module Changelog {
  import opened Text
  import opened Patterns
  import opened Fetch

  const ChangelogName := "CHANGELOG.md"

  /** One `item` of the feed's channel. */
  datatype FeedItem = FeedItem(title: string, description: string)

  /** The pattern built from `pattern` (no flags) matches `line` somewhere at or after `from`. */
  function MatchesFrom(line: string, pattern: string, from: nat): (b: bool)
    ensures b ==> from + |pattern| <= |line|
    decreases |line| - from
  {
    if from > |line| then false
    else InterpolatedAt(line, from, pattern) || MatchesFrom(line, pattern, from + 1)
  }

  lemma {:induction false} MatchesFromMeaning(line: string, pattern: string, from: nat)
    ensures MatchesFrom(line, pattern, from) <==> exists p :: from <= p <= |line| && InterpolatedAt(line, p, pattern)
    decreases |line| - from
  {
    if from <= |line| {
      MatchesFromMeaning(line, pattern, from + 1);
    }
  }

  /** `ifRegexMatch(line, pattern)`: `new RegExp(pattern).test(line)`. */
  function IfRegexMatch(line: string, pattern: string): (matched: bool)
    ensures matched ==> |pattern| <= |line|
  {
    MatchesFrom(line, pattern, 0)
  }

  /** The test succeeds iff the pattern matches at some offset of the line. */
  lemma IfRegexMatchMeaning(line: string, pattern: string)
    ensures IfRegexMatch(line, pattern) <==> exists p :: 0 <= p <= |line| && InterpolatedAt(line, p, pattern)
  {
    MatchesFromMeaning(line, pattern, 0);
  }

  /** A version without `.` matches exactly where it occurs literally; a title that holds the
      version always matches. */
  lemma MatchIsOccurrence(line: string, version: string)
    ensures Occurs(line, version) ==> IfRegexMatch(line, version)
    ensures '.' !in version ==> (IfRegexMatch(line, version) <==> Occurs(line, version))
  {
    IfRegexMatchMeaning(line, version);
    if Occurs(line, version) {
      var p: nat :| p <= |line| && OccursAt(line, p, version);
      var w := line[p..p + |version|];
      assert forall k :: 0 <= k < |w| ==> line[p + k] == w[k];
      assert InterpolatedAt(line, p, version);
    }
    if '.' !in version && IfRegexMatch(line, version) {
      var p :| 0 <= p <= |line| && InterpolatedAt(line, p, version);
      assert line[p..p + |version|] == version;
      assert OccursAt(line, p, version);
    }
  }

  /** What each item offers: its description when its title matches the version. */
  function Offered(items: seq<FeedItem>, version: string): (found: seq<Option<string>>)
    ensures |found| == |items|
    ensures forall k :: 0 <= k < |items| ==>
      found[k] == if IfRegexMatch(items[k].title, version) then Some(items[k].description) else None
    decreases |items|
  {
    if items == [] then []
    else
      var item := items[|items| - 1];
      Offered(items[..|items| - 1], version)
        + [if IfRegexMatch(item.title, version) then Some(item.description) else None]
  }

  /** The description the loop over the feed ends with: every matching item overwrites it. */
  function ChangelogOf(items: seq<FeedItem>, version: string): string
  {
    LastFound(Offered(items, version))
  }

  /** The changelog is the description of the last item whose title matches the version, and
      `""` when none matches. */
  lemma ChangelogLastMatch(items: seq<FeedItem>, version: string)
    ensures (forall k :: 0 <= k < |items| ==> !IfRegexMatch(items[k].title, version))
      ==> ChangelogOf(items, version) == ""
    ensures forall k :: 0 <= k < |items| ==>
      (IfRegexMatch(items[k].title, version)
       && forall j :: k < j < |items| ==> !IfRegexMatch(items[j].title, version))
      ==> ChangelogOf(items, version) == items[k].description
  {
    LastFoundIsLast(Offered(items, version));
  }

  /** The `forEach` over the feed's items in the response handler. */
  method SelectChangelog(items: seq<FeedItem>, version: string) returns (extracted: string)
    ensures extracted == ChangelogOf(items, version)
  {
    extracted := "";
    var i := 0;
    while i < |items|
      invariant 0 <= i <= |items|
      invariant extracted == ChangelogOf(items[..i], version)
    {
      assert items[..i + 1][..i] == items[..i];
      assert Offered(items[..i + 1], version) == Offered(items[..i], version)
        + [if IfRegexMatch(items[i].title, version) then Some(items[i].description) else None];
      if IfRegexMatch(items[i].title, version) {
        extracted := items[i].description;
      }
      i := i + 1;
    }
    assert items[..i] == items;
  }

  /** `getChangelog(release)`: when the feed arrives, the selected description, translated to
      Markdown, is written to the release directory; a failed write is caught and logged. A feed
      that does not arrive (`None`) writes nothing. */
  method GetChangelog(version: string, downloadPath: string, feed: Option<seq<FeedItem>>,
                      translate: string -> string, fs: FileSystem, writable: string -> bool)
    returns (fs': FileSystem)
    ensures var path := Directory(downloadPath, version) + ChangelogName;
      && (feed.Some? && writable(path) ==>
            fs' == fs[path := Chars(translate(ChangelogOf(feed.value, version)))])
      && (feed.None? || !writable(path) ==> fs' == fs)
  {
    fs' := fs;
    if feed.Some? {
      var extracted := SelectChangelog(feed.value, version);
      var path := downloadPath + "/" + version + "/" + ChangelogName;
      if writable(path) {
        fs' := fs[path := Chars(translate(extracted))];
      }
    }
  }
}
