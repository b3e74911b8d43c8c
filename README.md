# MikroTik release getter, modelled in Dafny

The release getter runs on a timer. On every tick it:

- downloads the MikroTik download page;
- finds the current long-term, stable, testing and development RouterOS versions on it;
- collects, for each version found, the download links that contain the version;
- scrapes each file's SHA-256 digest from the same page;
- downloads every file that is not already present, and checks its digest;
- writes a `SHA256SUMS` manifest into the release directory;
- writes the release's changelog, taken from the changelog feed, as `CHANGELOG.md`.

The model follows `main.js` module by module:

| module | file | what it models |
|---|---|---|
| `Text` | `text.dfy` | `split`, `join` and global `replace` on strings; JavaScript's default string order; the "last value found wins" loop |
| `Patterns` | `patterns.dfy` | the character classes, greedy runs, unescaped interpolation (`.` as a wild card) and the `i` flag of the program's regular expressions |
| `Listing` | `listing.dfy` | how the page is cut into lines: the content lines, split at `td>` and `li>`, and the plain lines, split at line breaks |
| `Releases` | `releases.dfy` | the four module-level release patterns, `exec` with the `g` flag, and the `lastIndex` each carries from line to line and from tick to tick |
| `Urls` | `urls.dfy` | the link pattern of a version, the link scan, and `[...new Set(rawurls)]` followed by `sort()` |
| `FileObjects` | `fileobjects.dfy` | `buildFileObject`: the file name, and the two-layout digest pattern applied to every page line |
| `Fetch` | `fetch.dfy` | the per-file loop: path and state, `checkIfFileExists`, the download, and `verifyFile`'s decision |
| `Manifest` | `manifest.dfy` | `createSumsFile` and the format of its lines |
| `Changelog` | `changelog.dfy` | `ifRegexMatch`, the choice of the feed item, and `getChangelog`'s write |
| `Getter` | `getter.dfy` | the `releases` table and the four patterns' `lastIndex` as a class, `getReleases`, and the tick's handler |

The file system is a map from paths to contents. The handler's effect on it is stated as a pure
function (`Getter.WorkOnAll`), and the class's methods are proved equal to it.

Timing is modelled as follows:

- the existence checks and the manifest writes happen synchronously, while the handler runs;
- the downloads land after the handler, in the order they were issued;
- the changelogs are written after the downloads.

Several things are parameters rather than code:

- the response to each file request, one per link for the whole tick;
- the SHA-256 function, an arbitrary function from file contents to text (`Fetch.EmptyDigestFails` is the one place that needs it to yield 64 characters, and requires that);
- which synchronous writes succeed;
- the answer to each changelog request of a tick, one per request: the feed already parsed into items, or nothing when it does not arrive;
- the HTML-to-Markdown translation.

Some behaviours of `main.js` that the model keeps:

- A version stays in its channel's record from tick to tick. It is never reset, and the channel is worked on again on a tick whose page no longer shows it.
- `rawurls` is never cleared, so links found on earlier ticks stay in `urls`.
- A file that is skipped because it exists keeps the status `'downloading'` that every item is given first.
- A download answered with a code other than 200 also keeps the status `'downloading'`. It leaves the empty file that `createWriteStream` created, and an empty file counts as absent.
- The digest is checked even when none was scraped. Since an empty digest never equals a SHA-256 digest, the status is then `'Hash failed'`.
- The scraped digest comes from the last page line that matches. On a line, the leftmost offset where either layout matches wins.
- The changelog is the description of the last feed item whose title matches the version.
- The downloads of a channel all start at once (`async.forEach`).
- Each changelog request is a request of its own, so each may get a different answer.

## Model

| member | source | states |
|---|---|---|
| `Text.Split` | main.js:417 | splitting always yields at least one piece, none of which holds the separator |
| `Text.JoinSplit` | main.js:417 | joining the pieces of a split with the separator gives back the original text |
| `Text.SplitJoin` | main.js:332 | splitting a join gives back the pieces, when none holds the separator |
| `Text.Join` | main.js:332 | `join` with a one-character separator; `JoinSplit` and `SplitJoin` make it the inverse of `Split` |
| `Text.ReplaceRemoves` | main.js:417 | after every occurrence of a tag is replaced by a character foreign to it, the tag occurs nowhere |
| `Text.ReplaceCreatesNothing` | main.js:417 | the replacement creates no new occurrence of a text that does not hold the inserted character |
| `Text.OccursInPiece` | main.js:417 | a text without the separator that occurs in a piece of a split occurs in the split text |
| `Text.ReplaceAll` | main.js:417 | replacing every occurrence of a text by itself gives back the string |
| `Text.ReplaceAbsent` | main.js:417 | a string in which the pattern does not occur is returned unchanged |
| `Text.ReplaceLeftmost` | main.js:417 | the leftmost occurrence is replaced, the text before it kept, and the replacement goes on after it |
| `Text.BelowIrreflexive` | main.js:439 | no string sorts below itself |
| `Text.BelowTransitive` | main.js:439 | the default sort order is transitive |
| `Text.BelowTotal` | main.js:439 | any two different strings are ordered one way, never both |
| `Text.Below` | main.js:439 | the default `sort()` order, character by character with a proper prefix first; `BelowIrreflexive`, `BelowTransitive` and `BelowTotal` make it a strict total order |
| `Text.LastFoundIsLast` | main.js:307-316 | a loop that overwrites `""` with each value found ends with `""` when nothing is found, and otherwise with the last value found |
| `Text.LastFoundEmpty` | main.js:307-316 | when no value found is empty, the loop ends with `""` only if nothing was found |
| `Patterns.Run` | main.js:92 | a greedy `[...]+` run stays inside the line, takes only class characters, and stops at the end or at a character outside the class |
| `Patterns.RunIsMaximal` | main.js:92 | any maximal run of class characters is the greedy run |
| `Patterns.FirstMatch` | main.js:306-308 | `exec` tries offsets in order: the offset found matches, no earlier one does, and with no result no offset in range matches |
| `Patterns.Fold` | main.js:306 | the `i` flag's folding maps upper-case ASCII letters to other letters and leaves every other character alone |
| `Patterns.FoldSame` | main.js:306 | two characters fold alike exactly when they are equal or are the upper- and lower-case forms of one ASCII letter |
| `Listing.ContentLinesShape` | main.js:417 | there is at least one content line; joined with line breaks they are the page with every `td>`, then every `li>`, replaced; no content line holds a line break, `td>` or `li>` |
| `Listing.ContentLines` | main.js:417 | `contentData`; `ContentLinesShape` states what it holds |
| `Listing.PageLines` | main.js:440 | `str.split('\n')`; `PageLinesShape` states what it holds |
| `Listing.PageLinesShape` | main.js:440 | the page lines joined with line breaks are the page, and no page line holds a line break |
| `Releases.MatchReleaseAt` | main.js:92-104 | a match at an offset is `>`, a non-empty greedy run of version characters, one white-space character, `(` and the channel's letter; the group is that run; the new `lastIndex` is the match's end; without a result no run length matches there |
| `Releases.ExecRelease` | main.js:92-104 | a result of `exec` is a match of the pattern at or after `lastIndex`, and the new `lastIndex` is its end |
| `Releases.ExecReleaseLeftmost` | main.js:92-104 | a successful `exec` from `lastIndex` returns the leftmost match at or after it |
| `Releases.ExecReleaseMissed` | main.js:92-104 | a failed `exec` means the pattern matches nowhere at or after `lastIndex` |
| `Releases.Step` | main.js:214-229 | one `exec` and its assignment: `lastIndex` 0 keeps the version; otherwise the new version was matched on the line, ending at the new `lastIndex`, which moved forward and stays inside the line |
| `Releases.Scan` | main.js:419-421 | after a scan, `lastIndex` lies inside the last line scanned |
| `Releases.NoHitKeepsVersion` | main.js:213-230 | when a pattern succeeds on no line, the channel's version from before the scan survives |
| `Releases.LastHitWins` | main.js:213-230 | the version after the scan is the group captured on the last line where the pattern succeeded |
| `Releases.ScanAll` | main.js:419-421 | `getReleases` on every line runs the four patterns' scans side by side, each from its own state |
| `Releases.NoMarkerNoMatch` | main.js:92-104 | a line that lacks the channel's letter never matches that channel's pattern |
| `Releases.ReleaseLineMatches` | main.js:92-104 | a line `>` + version + ` (` + letter matches from its start, capturing the version and ending at the line's end |
| `Releases.ScanTwo` | main.js:419-421 | a scan of two lines is one step per line, in order |
| `Releases.ExampleLongTerm` | main.js:92 | on a sample page the long-term version is found |
| `Releases.ExampleStable` | main.js:96 | on the same page the stable version is found |
| `Releases.ExampleAbsent` | main.js:100-104 | on the same page the testing and development versions stay empty |
| `Releases.ExtractExample` | main.js:213-230 | the four versions extracted from the sample page, together |
| `Releases.CarriedOffsetHidesMatch` | main.js:92 | the `lastIndex` a match leaves makes the same pattern miss a match on the next line, and resets to 0 |
| `Urls.LongestLead` | main.js:429 | the greedy link run backs off to the longest lead after which the version and a tail character follow, and no longer lead works |
| `Urls.MatchLinkAt` | main.js:429 | a match is `<a href="`, the longest lead, the version and every tail character after it; the captured link is the text after `<a href="` up to the match's end |
| `Urls.ExecLinkLeftmost` | main.js:429-432 | a successful `exec` returns the leftmost link match at or after `lastIndex` |
| `Urls.ExecLinkMissed` | main.js:429-432 | a failed `exec` means no link matches at or after `lastIndex` |
| `Urls.ExecLink` | main.js:429-432 | a result of `exec` starts at or after `lastIndex` and ends inside the line |
| `Urls.ExecLinkFinds` | main.js:429-432 | `exec` returns the match at the first offset from `lastIndex` at which the pattern matches |
| `Urls.MatchedLinkShape` | main.js:429 | a captured link is link characters, the version and tail characters, and stands right after `<a href="` |
| `Urls.LinkStep` | main.js:431-436 | one line keeps the links pushed before it and pushes at most one more; `lastIndex` stays inside the line |
| `Urls.LinkStepHit` | main.js:431-436 | a line on which the pattern matches from `lastIndex` pushes the capture of the first such match and moves `lastIndex` to its end |
| `Urls.LinkStepMiss` | main.js:431-436 | a line with no match from `lastIndex` pushes nothing and resets `lastIndex` to 0 |
| `Urls.ScanLinks` | main.js:429-436 | a fresh pattern over the lines pushes at most one link per line, and leaves `lastIndex` inside the last line |
| `Urls.ScanLinksPrefix` | main.js:429-436 | the links collected from the first lines are the first links collected from all of them |
| `Urls.ScanPushesEveryHit` | main.js:429-436 | every line on which the pattern matches from the carried `lastIndex` pushes its capture, at the next position of `rawurls` |
| `Urls.StepAddsLink` | main.js:431-436 | one line pushes at most one link, a link for the version found after an `<a href="` of that line |
| `Urls.ScannedLinks` | main.js:431-436 | a scan pushes at most one link per line, and every link it pushes is a link for the version found after an `<a href="` of one of the lines |
| `Urls.Distinct` | main.js:438 | `[...new Set(xs)]` holds exactly the elements of `xs`, with no duplicates |
| `Urls.InsertNoDuplicates` | main.js:439 | inserting a new element keeps a list free of duplicates |
| `Urls.InsertSorted` | main.js:439 | insertion keeps a list sorted |
| `Urls.SortStrings` | main.js:439 | `sort()` returns a permutation, in ascending default order, that is free of duplicates when its input is |
| `Urls.UniqueSortedShape` | main.js:438-439 | `urls` holds exactly the collected links, each once, each strictly below the next |
| `Urls.UniqueSorted` | main.js:438-439 | `urls` built from `rawurls`; `UniqueSortedShape` and `UniqueSortedCanonical` state what it holds |
| `Urls.DistinctOfDistinct` | main.js:438 | a list without duplicates is its own `[...new Set(...)]` |
| `Urls.SortSorted` | main.js:439 | sorting a sorted list leaves it unchanged |
| `Urls.AscendingUnique` | main.js:438-439 | two strictly ascending lists with the same elements are equal |
| `Urls.UniqueSortedCanonical` | main.js:438-439 | `urls` depends only on which links were collected, not their order or repeats, and rebuilding it from itself changes nothing |
| `FileObjects.FileNameShape` | main.js:302 | the file name holds no `/`; it is the whole link when the link has no `/`, and otherwise ends the link right after a `/` |
| `FileObjects.FileName` | main.js:302 | the file name holds no `/` |
| `FileObjects.FileNameAfterLastSlash` | main.js:302 | the file name is the text after the link's last `/` |
| `FileObjects.FileNameExample` | main.js:302 | the file name of a sample download link |
| `FileObjects.MatchTableAt` | main.js:306 | a result is a match of the table layout: `>`, the name, the MD5 cell, its digest, the SHA256 cell and its digest, then `</td>`, letters in either case |
| `FileObjects.MatchBoldAt` | main.js:306 | a result is a match of the bold layout: `<b>SHA256 </b>`, the name, `: `, the digest, then `<br` |
| `FileObjects.TableMatchForced` | main.js:306 | whenever the table layout matches at an offset, the match function finds exactly that match |
| `FileObjects.BoldMatchForced` | main.js:306 | whenever the bold layout matches at an offset, the match function finds exactly that match |
| `FileObjects.MatchDigestAt` | main.js:306-314 | a match at an offset captures a non-empty run of letters and digits, in the group the code reads |
| `FileObjects.MatchDigestFound` | main.js:306 | the digest pattern matches at an offset exactly when the table layout or the bold layout matches there |
| `FileObjects.MatchDigestTable` | main.js:306-314 | where the table layout matches, the group read is the SHA256 cell's digest |
| `FileObjects.MatchDigestBold` | main.js:306-314 | where only the bold layout matches, the group read is the digest after `: ` |
| `FileObjects.DigestOf` | main.js:306-308 | `shaRegex.exec(line)` returns the leftmost match from offset 0, and fails only when no offset matches |
| `FileObjects.LineDigest` | main.js:308-314 | a line yields a digest exactly when the pattern matches it; the digest is the captured group and is never empty |
| `FileObjects.LineDigests` | main.js:307-316 | the digests the page's lines yield, one per line |
| `FileObjects.ScrapedDigestLast` | main.js:307-316 | the digest stays `""` when no line matches, and is otherwise the group captured on the last matching line |
| `FileObjects.ScrapedDigest` | main.js:307-316 | the digest `buildFileObject` scrapes for a file name; `ScrapedDigestLast` states which line it comes from |
| `FileObjects.BuildFileObject` | main.js:299-318 | the object holds the link, its file name and the digest scraped for that name |
| `FileObjects.BuildFileObjects` | main.js:439-441 | one object per link of `urls`, in order, each built by `buildFileObject` |
| `FileObjects.Built` | main.js:439-441 | the objects built from `urls`; `BuildFileObjects` is proved equal to it and `BuildFileObject` states each object |
| `Fetch.ApplyUntouched` | main.js:449 | a path no download writes keeps what it held |
| `Fetch.ApplySameContent` | main.js:449 | a path every download to which writes the same content ends with that content |
| `Fetch.ApplyNonEmpty` | main.js:238-251 | downloads of non-empty content leave every file that existed, or that they write, existing |
| `Fetch.FileExists` | main.js:238-251 | `checkIfFileExists`: the path holds a file whose size is not zero; `ApplyNonEmpty`, `SkippedAfterPass` and `FailedDownloadRetried` state how the downloads change it |
| `Fetch.VerifyStatus` | main.js:345-355 | the status is `'Hash matches'` exactly when the scraped digest equals the file's digest, and `'Hash failed'` otherwise |
| `Fetch.EmptyDigestFails` | main.js:345-355 | an empty scraped digest always gives `'Hash failed'` |
| `Fetch.FetchItem` | main.js:442-461 | each item gets its path, `'downloading'` and size 0; it is downloaded exactly when absent or when `redownload` is set; a 200 stores the body, gives its size and the digest decision; any other code stores an empty file and leaves `'downloading'` |
| `Fetch.FetchBatch` | main.js:442-461 | the loop leaves one item per object and queues at most one download per object |
| `Fetch.BatchItems` | main.js:442-447 | the loop leaves one item per object, each as its own turn left it |
| `Fetch.BatchQuiet` | main.js:448 | when no item needs a download, the loop writes nothing |
| `Fetch.BatchWritesKept` | main.js:448-449 | every item that downloads contributes its write |
| `Fetch.BatchWritesFrom` | main.js:448-449 | every write comes from an item that downloads |
| `Fetch.BatchWrites` | main.js:448-449 | the loop's writes are exactly those of the items that download |
| `Fetch.FetchOne` | main.js:443-461 | one turn of the per-item loop, as `FetchItem` describes it |
| `Fetch.FetchAll` | main.js:442-461 | the per-item loop leaves the items and queues the writes that `FetchBatch` describes |
| `Fetch.BatchWritesInDirectory` | main.js:443-444 | every download writes directly inside the release directory |
| `Fetch.WritesNonEmpty` | main.js:281-282 | when every download is answered 200 with a non-empty body, no write is empty |
| `Fetch.SkippedAfterPass` | main.js:448 | after such a pass, every object's file exists, so a pass without `redownload` skips it |
| `Fetch.SecondPassIdle` | main.js:442-461 | after such a pass, a second pass without `redownload` downloads nothing and leaves every item `'downloading'` with size 0 |
| `Fetch.FailedDownloadRetried` | main.js:277-290 | when no other object of the batch has the same file name, a download answered with a code other than 200 leaves the file absent, so the next pass requests it again |
| `Manifest.ManifestLines` | main.js:327-330 | one line `<digest> *<filename>` per object, in order |
| `Manifest.ManifestLine` | main.js:329 | one manifest line; `ParseManifestLine` gives back its digest and file name |
| `Manifest.ManifestText` | main.js:326-332 | the manifest is empty exactly when there are no objects |
| `Manifest.ParseManifestLine` | main.js:329 | a manifest line split at its first space gives back the digest and the file name, when the digest holds no space |
| `Manifest.ManifestRoundTrip` | main.js:326-332 | the manifest splits back into one line per object, each giving back its object's digest and file name; with no objects the manifest is empty |
| `Manifest.ManifestExample` | main.js:329-332 | the manifest of two sample objects |
| `Manifest.CreateSumsFile` | main.js:326-336 | when the write succeeds, `SHA256SUMS` holds the manifest; otherwise nothing changes |
| `Changelog.MatchesFromMeaning` | main.js:364-370 | the pattern matches at or after an offset exactly when it matches at some offset there |
| `Changelog.MatchesFrom` | main.js:364-370 | a match from an offset leaves room for the whole pattern in the title |
| `Changelog.IfRegexMatch` | main.js:364-370 | a title shorter than the version never matches |
| `Changelog.IfRegexMatchMeaning` | main.js:364-370 | `ifRegexMatch` holds exactly when the interpolated version matches at some offset of the title |
| `Changelog.MatchIsOccurrence` | main.js:364-370 | a title that contains the version always matches; for a version without `.`, matching is exactly containment |
| `Changelog.Offered` | main.js:388-392 | each feed item offers its description exactly when its title matches |
| `Changelog.ChangelogLastMatch` | main.js:388-392 | the changelog is `""` when no title matches, and otherwise the description of the last matching item |
| `Changelog.ChangelogOf` | main.js:388-392 | the changelog chosen from the feed; `ChangelogLastMatch` states which item it comes from |
| `Changelog.SelectChangelog` | main.js:388-392 | the loop over the feed ends with the changelog that `ChangelogLastMatch` characterizes |
| `Changelog.GetChangelog` | main.js:377-406 | when the feed arrives and the write succeeds, `CHANGELOG.md` in the release directory holds the translated changelog; otherwise nothing changes |
| `Getter.WithVersions` | main.js:213-230 | every record takes the version its scan holds and keeps the rest |
| `Getter.WorkOn` | main.js:424-466 | the loop body for one channel; `WorkOnRefreshes`, `WorkOnWritesManifest`, `WorkOnOthers` and `EmptyVersionSkipped` state what it does |
| `Getter.WorkOnAll` | main.js:422-471 | the loop over the channels; `EveryReleaseRefreshed`, `RawUrlsGrow`, `VersionsKept` and `NothingToWorkOn` state what it does |
| `Getter.WorkOnRefreshes` | main.js:422-441 | working on a channel with a version refreshes its record: the same version; the page's links appended to `rawurls`; `urls` as `rawurls` deduplicated and sorted; one object per link with its file name, scraped digest and path |
| `Getter.WorkOnOthers` | main.js:422-466 | working on a channel changes no version and no other channel's record |
| `Getter.WorkOnWritesManifest` | main.js:439-466 | working on a channel writes its objects' manifest to the release directory when the write succeeds and changes no other file; it appends its objects' downloads to the queue and requests its changelog |
| `Getter.SumsWritten` | main.js:465 | `createSumsFile` on the file system; `Manifest.CreateSumsFile` and `WorkOnWritesManifest` state its effect |
| `Getter.ManifestIgnoresFetch` | main.js:442-465 | the manifest lists the digests scraped from the page, whatever the downloads did |
| `Getter.NoVersionUntouched` | main.js:424-469 | a channel without a version is left exactly as it was by the whole loop |
| `Getter.EmptyVersionSkipped` | main.js:424 | a channel without a version leaves the table, the file system, the downloads and the changelog requests as they were |
| `Getter.NothingToWorkOn` | main.js:422-471 | when no channel has a version, the loop over the channels changes nothing |
| `Getter.NothingFoundNothingWritten` | main.js:422-471 | when no channel has a version, the table and the file system end as they were |
| `Getter.WorkOnAppends` | main.js:434 | working on one channel only appends to any channel's `rawurls` |
| `Getter.RawUrlsGrow` | main.js:422-436 | `rawurls` is never cleared: each channel's list from before the loop is a prefix of the list after it |
| `Getter.VersionsKept` | main.js:422-471 | the loop over the channels changes no version |
| `Getter.RefreshedOnce` | main.js:422-466 | after a loop that visits each channel at most once, every visited channel with a version has been refreshed from its record before the loop |
| `Getter.EveryReleaseRefreshed` | main.js:422-471 | after the loop over the four channels, every channel with a version is refreshed from its old record, and every channel without one keeps its record |
| `Getter.ReleaseGetter.constructor` | main.js:110-139 | the program starts with four empty records and every pattern's `lastIndex` at 0 |
| `Getter.ReleaseGetter.ExecPattern` | main.js:214-229 | one block of `getReleases`: the channel's scan takes one step and the records take the scanned versions; no other channel changes |
| `Getter.ReleaseGetter.GetReleases` | main.js:213-230 | `getReleases(line)` takes all four scans one step |
| `Getter.ReleaseGetter.ScanListing` | main.js:419-421 | `getReleases` over every content line, the scans carrying their `lastIndex` from line to line |
| `Getter.ReleaseGetter.WorkOnRelease` | main.js:424-465 | the loop body for one channel leaves the table, the file system and the queued downloads that `WorkOn` describes, and keeps every `lastIndex` |
| `Getter.ReleaseGetter.WorkOnChannels` | main.js:422-471 | the loop over the channels in table order leaves what `WorkOnAll` describes |
| `Getter.ReleaseGetter.OnListing` | main.js:416-471 | the scans advance over every content line; the table is then refreshed as `EveryReleaseRefreshed` states; the file system ends with the manifests, then the downloads and then the changelogs; when no version was found, the file system is unchanged |
| `Getter.CollectLinks` | main.js:429-436 | a fresh link pattern over every content line appends the links it finds to `rawurls`, in order |
| `Getter.WriteChangelogs` | main.js:377-406 | the changelog requests of the tick are written in the order they were made, each from the answer to its own request |
| `Getter.WithChangelogs` | main.js:377-406 | the file system after the tick's changelog requests; `WriteChangelogs` is proved equal to it and `Changelog.GetChangelog` states each write |

## Left out

- Process life cycle: the signal and exit handlers, `process.stdin.resume()`, log4js logging and the export of `cert.pem` are not part of this model.
- The cron schedule and the HTTPS requests for the page and the feed are left out. The handler is modelled from the moment the page has arrived. The feed is given already parsed.
- XML parsing of the feed and the HTML-to-Markdown translation are parameters.
- The SHA-256 digest is a parameter, an arbitrary function from contents to text.
- `createDirectory` is left out. The file system is a flat map from paths to contents, without directories.
- `getFileStats` is left out. The size of a downloaded file is the length of the response body. Its error branch, which refers to an undefined `localFile`, is not modelled.
- lib/download.js is not part of this model.
- The `sha256` array of each record is never used by the program and is left out.
- Network errors, timeouts and failed requests for files are left out: every file request receives a response.
- `Fetch.Fetcher`: each link gets one answer per tick. Two requests for the same link in one tick get the same response. This happens when two channels share a version, or when one version's link pattern also matches another version's links.
- Concurrency is fixed to one order. Within a tick, the downloads land after the handler in issue order, and the changelogs after them. Other interleavings of the callbacks, and overlapping ticks, are not modelled.
- `Fetch.FetchItem`: the transient status `'done'` that a finished download holds before `verifyFile` runs is not modelled. Only the final status is.
- `Fetch.FetchItem`: a stream that fails while piping is not modelled. A 200 always stores the whole body.
- `Patterns.Run`: positions count characters, not UTF-16 code units.
- `Patterns.Fold`: the `i` flag folds ASCII letters only.
- `Text.Below`: the order compares characters, not UTF-16 code units.
- `Patterns.Interpolated`: the version and file name spliced into a pattern are read with `.` as a wild card and every other character literal. Other metacharacters are not modelled.
