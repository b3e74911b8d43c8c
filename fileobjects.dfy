/** The file objects of a release (main.js:299-318): one per link, holding the link, the file
    name after its last `/` and the SHA-256 digest scraped from the listing page. The digest
    pattern is built per file, case-insensitive and without the `g` flag, with two
    alternatives:
      `>` F `</td><td>MD5</td><td>` [a-zA-Z0-9]+ `</td></tr><tr><td>SHA256</td><td>` (H) `</td>`
      `<b>SHA256 </b>` F `: ` (H) `<br`
    where F is the file name spliced in unescaped and H is `[a-zA-Z0-9]+`. */
module FileObjects {
  import opened Text
  import opened Patterns

  /** The stages a file object goes through: built, download started, and the two outcomes of
      checking the digest. (`'done'` is set and overwritten within the same callback, so it is
      never observable and has no value here.) */
  datatype Status = Unset | Downloading | HashMatches | HashFailed

  datatype FileObject = FileObject(
    url: string, filename: string, sha256: string, filepath: string, status: Status, size: nat)

  /** `uri.split('/').reverse()[0]`: the last `/`-separated piece. */
  function FileName(uri: string): (name: string)
    ensures '/' !in name
  {
    var pieces := Split(uri, '/');
    pieces[|pieces| - 1]
  }

  /** The file name holds no `/` and ends the link; it is the whole link or comes right after a
      `/` of the link. */
  lemma FileNameShape(uri: string)
    ensures '/' !in FileName(uri)
    ensures '/' !in uri ==> FileName(uri) == uri
    ensures '/' in uri ==> exists k :: 0 <= k < |uri| && uri == uri[..k] + "/" + FileName(uri)
  {
    var pieces := Split(uri, '/');
    var n := |pieces|;
    JoinSplit(uri, '/');
    if n == 1 {
      assert uri == pieces[0];
    } else {
      JoinLast(pieces, '/');
      var front := Join(pieces[..n - 1], '/');
      assert uri == front + "/" + FileName(uri);
      assert uri[..|front|] == front;
      assert uri[|front|] == '/';
    }
  }

  /** The file name is the text after the last `/`: whenever the link is some text, a `/` and a
      piece without `/`, that piece is the file name. */
  lemma FileNameAfterLastSlash(uri: string, front: string, name: string)
    requires uri == front + "/" + name && '/' !in name
    ensures FileName(uri) == name
  {
    FileNameShape(uri);
    assert uri[|front|] == '/';
    var f := FileName(uri);
    var k :| 0 <= k < |uri| && uri == uri[..k] + "/" + f;
    assert uri[k] == '/';
    assert f == uri[k + 1..] && name == uri[|front| + 1..];
  }

  lemma FileNameExample()
    ensures FileName("https://example.com/dl/routeros-7.15.3.npk") == "routeros-7.15.3.npk"
  {
    FileNameAfterLastSlash("https://example.com/dl/routeros-7.15.3.npk", "https://example.com/dl",
      "routeros-7.15.3.npk");
  }

  const Md5Cell := "</td><td>MD5</td><td>"
  const Sha256Cell := "</td></tr><tr><td>SHA256</td><td>"
  const CellClose := "</td>"
  const BoldLabel := "<b>SHA256 </b>"
  const NameSep := ": "
  const BreakOpen := "<br"

  /** The table alternative matches at `p` with an MD5 digest of `m` characters and a SHA-256
      digest of `d` characters. */
  predicate TableDigestAt(line: string, p: nat, name: string, m: nat, d: nat)
  {
    var b := p + 1 + |name| + |Md5Cell|;
    var c := b + m + |Sha256Cell|;
    c + d + |CellClose| <= |line|
    && line[p] == '>' && InterpolatedCiAt(line, p + 1, name)
    && LiteralCiAt(line, p + 1 + |name|, Md5Cell)
    && 1 <= m && AllIn(line, b, b + m, IsAlnum) && LiteralCiAt(line, b + m, Sha256Cell)
    && 1 <= d && AllIn(line, c, c + d, IsAlnum) && LiteralCiAt(line, c + d, CellClose)
  }

  /** The bold alternative matches at `p` with a SHA-256 digest of `d` characters. */
  predicate BoldDigestAt(line: string, p: nat, name: string, d: nat)
  {
    var a := p + |BoldLabel|;
    var b := a + |name| + |NameSep|;
    b + d + |BreakOpen| <= |line|
    && LiteralCiAt(line, p, BoldLabel) && InterpolatedCiAt(line, a, name)
    && LiteralCiAt(line, a + |name|, NameSep)
    && 1 <= d && AllIn(line, b, b + d, IsAlnum) && LiteralCiAt(line, b + d, BreakOpen)
  }

  /** The lengths of the two digests of a table match. */
  datatype TableRuns = TableRuns(md5: nat, sha: nat)

  /** Where the table alternative's SHA-256 digest starts in a match at `p`. */
  function TableShaStart(p: nat, name: string, md5: nat): nat
  {
    p + 1 + |name| + |Md5Cell| + md5 + |Sha256Cell|
  }

  /** Where the bold alternative's SHA-256 digest starts in a match at `p`. */
  function BoldShaStart(p: nat, name: string): nat
  {
    p + |BoldLabel| + |name| + |NameSep|
  }

  /** Whether the table alternative matches at `p`, and with which runs. Each `+` is followed by
      a `<`, which is not alphanumeric, so each run is the maximal one. */
  function MatchTableAt(line: string, p: nat, name: string): (r: Option<TableRuns>)
    ensures r.Some? ==> TableDigestAt(line, p, name, r.value.md5, r.value.sha)
  {
    var b := p + 1 + |name| + |Md5Cell|;
    if b <= |line| then
      var m := Run(line, b, IsAlnum);
      var c := b + m + |Sha256Cell|;
      if c <= |line| && TableDigestAt(line, p, name, m, Run(line, c, IsAlnum)) then
        Some(TableRuns(m, Run(line, c, IsAlnum)))
      else None
    else None
  }

  /** Whether the bold alternative matches at `p`, and the length of its digest. */
  function MatchBoldAt(line: string, p: nat, name: string): (r: Option<nat>)
    ensures r.Some? ==> BoldDigestAt(line, p, name, r.value)
  {
    var b := BoldShaStart(p, name);
    if b <= |line| && BoldDigestAt(line, p, name, Run(line, b, IsAlnum)) then
      Some(Run(line, b, IsAlnum))
    else None
  }

  /** Whenever the table alternative matches at `p`, its runs are the maximal ones, so the match
      function finds exactly that match. */
  lemma TableMatchForced(line: string, p: nat, name: string, m: nat, d: nat)
    requires TableDigestAt(line, p, name, m, d)
    ensures MatchTableAt(line, p, name) == Some(TableRuns(m, d))
  {
    TableRunsMaximal(line, p, name, m, d);
  }

  /** The runs of a table match are maximal. */
  lemma TableRunsMaximal(line: string, p: nat, name: string, m: nat, d: nat)
    requires TableDigestAt(line, p, name, m, d)
    ensures var b := p + 1 + |name| + |Md5Cell|;
      b <= |line| && Run(line, b, IsAlnum) == m && b + m + |Sha256Cell| <= |line|
      && Run(line, b + m + |Sha256Cell|, IsAlnum) == d
  {
    var b := p + 1 + |name| + |Md5Cell|;
    var c := b + m + |Sha256Cell|;
    assert LiteralCiAt(line, b + m, Sha256Cell) && LiteralCiAt(line, c + d, CellClose);
    RunBeforeTag(line, b, m, Sha256Cell);
    RunBeforeTag(line, c, d, CellClose);
  }

  /** Whenever the bold alternative matches at `p`, its run is the maximal one, so the match
      function finds exactly that match. */
  lemma BoldMatchForced(line: string, p: nat, name: string, d: nat)
    requires BoldDigestAt(line, p, name, d)
    ensures MatchBoldAt(line, p, name) == Some(d)
  {
    var b := BoldShaStart(p, name);
    LiteralCiHead(line, b + d, BreakOpen);
    RunIsMaximal(line, b, d, IsAlnum);
  }

  /** A successful `exec`: where it matched and the two named groups, `""` standing for a group
      that did not take part. */
  datatype DigestMatch = DigestMatch(start: nat, sha1: string, sha2: string)

  /** The group the code reads: `sha_1` when it is set, `sha_2` otherwise. */
  function Captured(m: DigestMatch): string
  {
    if m.sha1 != "" then m.sha1 else m.sha2
  }

  /** The two alternatives tried in order at `p`; what is captured is a non-empty run of
      alphanumeric characters. */
  function MatchDigestAt(line: string, p: nat, name: string): (r: Option<DigestMatch>)
    ensures r.Some? ==> r.value.start == p && Captured(r.value) != ""
    ensures r.Some? ==> forall k :: 0 <= k < |Captured(r.value)| ==> IsAlnum(Captured(r.value)[k])
  {
    match MatchTableAt(line, p, name)
    case Some(t) =>
      var c := TableShaStart(p, name, t.md5);
      var h := line[c..c + t.sha];
      assert forall k :: 0 <= k < |h| ==> h[k] == line[c + k];
      Some(DigestMatch(p, h, ""))
    case None =>
      match MatchBoldAt(line, p, name)
      case Some(d) =>
        var b := BoldShaStart(p, name);
        var h := line[b..b + d];
        assert forall k :: 0 <= k < |h| ==> h[k] == line[b + k];
        Some(DigestMatch(p, "", h))
      case None => None
  }

  /** A digest match is found at `p` exactly when one of the two layouts matches there. */
  lemma MatchDigestFound(line: string, p: nat, name: string)
    ensures MatchDigestAt(line, p, name).Some?
      <==> (exists m, d :: TableDigestAt(line, p, name, m, d)) || (exists d :: BoldDigestAt(line, p, name, d))
  {
    if MatchDigestAt(line, p, name).Some? {
      match MatchTableAt(line, p, name)
      case Some(t) =>
        assert TableDigestAt(line, p, name, t.md5, t.sha);
      case None =>
        var d := MatchBoldAt(line, p, name).value;
        assert BoldDigestAt(line, p, name, d);
    } else {
      forall m, d | TableDigestAt(line, p, name, m, d) ensures false {
        TableMatchForced(line, p, name, m, d);
      }
      forall d | BoldDigestAt(line, p, name, d) ensures false {
        BoldMatchForced(line, p, name, d);
      }
    }
  }

  /** When the table layout matches at `p`, its SHA-256 cell is what is captured. */
  lemma MatchDigestTable(line: string, p: nat, name: string, m: nat, d: nat)
    requires TableDigestAt(line, p, name, m, d)
    ensures var c := TableShaStart(p, name, m);
      && MatchDigestAt(line, p, name).Some?
      && Captured(MatchDigestAt(line, p, name).value) == line[c..c + d]
  {
    TableMatchForced(line, p, name, m, d);
  }

  /** When only the bold layout matches at `p`, its digest is what is captured. */
  lemma MatchDigestBold(line: string, p: nat, name: string, d: nat)
    requires BoldDigestAt(line, p, name, d)
    requires forall m, d' :: !TableDigestAt(line, p, name, m, d')
    ensures var b := BoldShaStart(p, name);
      && MatchDigestAt(line, p, name).Some?
      && Captured(MatchDigestAt(line, p, name).value) == line[b..b + d]
  {
    BoldMatchForced(line, p, name, d);
    TableFoundIsLayout(line, p, name);
  }

  /** The table match function succeeds only where the table layout matches. */
  lemma TableFoundIsLayout(line: string, p: nat, name: string)
    ensures MatchTableAt(line, p, name).Some? ==> exists m, d :: TableDigestAt(line, p, name, m, d)
  {
    if MatchTableAt(line, p, name).Some? {
      var t := MatchTableAt(line, p, name).value;
      assert TableDigestAt(line, p, name, t.md5, t.sha);
    }
  }

  /** Neither alternative matches anywhere in `[from, to)`. */
  predicate NoDigestBetween(line: string, name: string, from: nat, to: nat)
  {
    forall q :: from <= q < to ==> MatchDigestAt(line, q, name).None?
  }

  /** `shaRegex.exec(line)`: the pattern has no `g` flag, so every line is searched from its
      start, and the leftmost match is taken. */
  function DigestOf(line: string, name: string): (r: Option<DigestMatch>)
    ensures r.Some? ==> r == MatchDigestAt(line, r.value.start, name)
    ensures r.Some? ==> NoDigestBetween(line, name, 0, r.value.start)
    ensures r.None? ==> NoDigestBetween(line, name, 0, |line|)
  {
    var matchAt := (q: nat) => MatchDigestAt(line, q, name);
    match FirstMatch(matchAt, 0, |line|)
    case Some(p) =>
      assert NoDigestBetween(line, name, 0, p) by {
        forall q | 0 <= q < p ensures MatchDigestAt(line, q, name).None? {
          assert matchAt(q).None?;
        }
      }
      MatchDigestAt(line, p, name)
    case None =>
      assert NoDigestBetween(line, name, 0, |line|) by {
        forall q | 0 <= q < |line| ensures MatchDigestAt(line, q, name).None? {
          assert matchAt(q).None?;
        }
      }
      None
  }

  /** The digest one line yields, if its pattern matches. */
  function LineDigest(line: string, name: string): (r: Option<string>)
    ensures r.Some? <==> DigestOf(line, name).Some?
    ensures r.Some? ==> r.value == Captured(DigestOf(line, name).value) && r.value != ""
  {
    match DigestOf(line, name)
    case Some(m) => Some(Captured(m))
    case None => None
  }

  /** The digest `buildFileObject` ends with: what the lines yield, the last one that yields a
      digest winning. */
  function ScrapedDigest(lines: seq<string>, name: string): string
  {
    LastFound(LineDigests(lines, name))
  }

  /** What each line yields, line by line. */
  function LineDigests(lines: seq<string>, name: string): (found: seq<Option<string>>)
    ensures |found| == |lines|
    ensures forall k :: 0 <= k < |lines| ==> found[k] == LineDigest(lines[k], name)
    decreases |lines|
  {
    if lines == [] then []
    else LineDigests(lines[..|lines| - 1], name) + [LineDigest(lines[|lines| - 1], name)]
  }

  /** With no matching line the digest stays empty; with one, it is the digest of the last
      matching line, which is never empty. */
  lemma ScrapedDigestLast(lines: seq<string>, name: string)
    ensures ScrapedDigest(lines, name) == ""
      <==> forall k :: 0 <= k < |lines| ==> DigestOf(lines[k], name).None?
    ensures forall k :: 0 <= k < |lines| ==>
      (DigestOf(lines[k], name).Some? && forall j :: k < j < |lines| ==> DigestOf(lines[j], name).None?)
      ==> ScrapedDigest(lines, name) == Captured(DigestOf(lines[k], name).value)
  {
    var found := LineDigests(lines, name);
    LastFoundIsLast(found);
    LastFoundEmpty(found);
    forall k | 0 <= k < |lines|
      ensures found[k].None? <==> DigestOf(lines[k], name).None?
      ensures found[k].Some? ==> found[k].value == Captured(DigestOf(lines[k], name).value)
    {
    }
  }

  /** `buildFileObject(uri, rawPage)`: the object for one link, with the digest scraped line by
      line. */
  method BuildFileObject(uri: string, rawPage: seq<string>) returns (f: FileObject)
    ensures f.url == uri && f.filename == FileName(uri)
    ensures f.sha256 == ScrapedDigest(rawPage, FileName(uri))
    ensures f.filepath == "" && f.status == Unset && f.size == 0
  {
    f := FileObject(uri, FileName(uri), "", "", Unset, 0);
    var i := 0;
    while i < |rawPage|
      invariant 0 <= i <= |rawPage|
      invariant f == FileObject(uri, FileName(uri), f.sha256, "", Unset, 0)
      invariant f.sha256 == LastFound(LineDigests(rawPage[..i], FileName(uri)))
    {
      var shaExec := DigestOf(rawPage[i], f.filename);
      assert rawPage[..i + 1][..i] == rawPage[..i];
      assert LineDigests(rawPage[..i + 1], f.filename)
        == LineDigests(rawPage[..i], f.filename) + [LineDigest(rawPage[i], f.filename)];
      if shaExec.Some? {
        if shaExec.value.sha1 != "" {
          f := f.(sha256 := shaExec.value.sha1);
        } else {
          f := f.(sha256 := shaExec.value.sha2);
        }
      }
      i := i + 1;
    }
    assert rawPage[..i] == rawPage;
  }

  /** The object `buildFileObject` makes for each link, in the order of the links. */
  function Built(urls: seq<string>, rawPage: seq<string>): seq<FileObject>
  {
    seq(|urls|, i requires 0 <= i < |urls| =>
      FileObject(urls[i], FileName(urls[i]), ScrapedDigest(rawPage, FileName(urls[i])), "", Unset, 0))
  }

  /** `objs`: one object per link, in the order of the links. */
  method BuildFileObjects(urls: seq<string>, rawPage: seq<string>) returns (objs: seq<FileObject>)
    ensures objs == Built(urls, rawPage)
    ensures |objs| == |urls|
    ensures forall i :: 0 <= i < |urls| ==>
      && objs[i].url == urls[i] && objs[i].filename == FileName(urls[i])
      && objs[i].sha256 == ScrapedDigest(rawPage, FileName(urls[i]))
      && objs[i].filepath == "" && objs[i].status == Unset && objs[i].size == 0
  {
    objs := [];
    var i := 0;
    while i < |urls|
      invariant 0 <= i <= |urls| && |objs| == i
      invariant forall j :: 0 <= j < i ==>
        && objs[j].url == urls[j] && objs[j].filename == FileName(urls[j])
        && objs[j].sha256 == ScrapedDigest(rawPage, FileName(urls[j]))
        && objs[j].filepath == "" && objs[j].status == Unset && objs[j].size == 0
    {
      var f := BuildFileObject(urls[i], rawPage);
      objs := objs + [f];
      i := i + 1;
    }
    assert forall j :: 0 <= j < |urls| ==> objs[j] == Built(urls, rawPage)[j];
  }
}
