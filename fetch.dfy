/** The per-file fetch machine of the tick handler (main.js:442-461), with `checkIfFileExists`
    (main.js:238-251), `download` (main.js:277-290) and `verifyFile` (main.js:345-355).

    The file system is a map from path to content. The existence checks run synchronously while
    the handler runs, so they all read the file system as it stands then; the downloads finish
    later, so each one is a pending write. The HTTP response for a link and the SHA-256 hex
    digest are functions given to the model. */
module Fetch {
  import opened Text
  import opened FileObjects

  newtype byte = x: int | 0 <= x < 256

  /** What a file holds: downloaded bytes, or text written with `writeFileSync`. */
  datatype Content = Bytes(data: seq<byte>) | Chars(text: string)

  type FileSystem = map<string, Content>

  predicate IsEmpty(c: Content)
  {
    match c
    case Bytes(data) => data == []
    case Chars(text) => text == []
  }

  /** `checkIfFileExists`: the path exists and its size is not zero. */
  predicate FileExists(fs: FileSystem, path: string)
  {
    path in fs && !IsEmpty(fs[path])
  }

  datatype Write = Write(path: string, content: Content)

  /** The file system after the writes, in order. */
  function Apply(fs: FileSystem, writes: seq<Write>): FileSystem
    decreases |writes|
  {
    if writes == [] then fs
    else
      var w := writes[|writes| - 1];
      Apply(fs, writes[..|writes| - 1])[w.path := w.content]
  }

  /** A path no write touches keeps what it held. */
  lemma {:induction false} ApplyUntouched(fs: FileSystem, writes: seq<Write>, path: string)
    requires forall k :: 0 <= k < |writes| ==> writes[k].path != path
    ensures path in Apply(fs, writes) <==> path in fs
    ensures path in fs ==> Apply(fs, writes)[path] == fs[path]
    decreases |writes|
  {
    if writes != [] {
      ApplyUntouched(fs, writes[..|writes| - 1], path);
    }
  }

  /** When every write to a path carries the same content and there is one, the path ends with
      that content. */
  lemma {:induction false} ApplySameContent(fs: FileSystem, writes: seq<Write>, path: string, c: Content)
    requires exists k :: 0 <= k < |writes| && writes[k].path == path
    requires forall k :: 0 <= k < |writes| && writes[k].path == path ==> writes[k].content == c
    ensures path in Apply(fs, writes) && Apply(fs, writes)[path] == c
    decreases |writes|
  {
    var n := |writes|;
    var init := writes[..n - 1];
    if writes[n - 1].path != path {
      var k :| 0 <= k < n && writes[k].path == path;
      assert init[k] == writes[k];
      ApplySameContent(fs, init, path, c);
    }
  }

  /** Writes of non-empty content never make a file absent, and make every path they touch
      present. */
  lemma {:induction false} ApplyNonEmpty(fs: FileSystem, writes: seq<Write>, path: string)
    requires forall k :: 0 <= k < |writes| ==> !IsEmpty(writes[k].content)
    requires FileExists(fs, path) || exists k :: 0 <= k < |writes| && writes[k].path == path
    ensures FileExists(Apply(fs, writes), path)
    decreases |writes|
  {
    var n := |writes|;
    if n > 0 && writes[n - 1].path != path {
      var init := writes[..n - 1];
      if !FileExists(fs, path) {
        var k :| 0 <= k < n && writes[k].path == path;
        assert init[k] == writes[k];
      }
      ApplyNonEmpty(fs, init, path);
    }
  }

  /** The response to a request: its status code and, when the code is 200, the body piped to
      the file. */
  datatype Response = Response(statusCode: int, body: seq<byte>)

  /** What the handler is given for the downloads: `appConfig.redownload`, the response for each
      link and the SHA-256 hex digest. */
  datatype Fetcher = Fetcher(
    redownload: bool, fetch: string -> Response, digest: seq<byte> -> string)

  /** The digest function yields 64 characters for every content, as a SHA-256 hex digest does. */
  ghost predicate DigestWellFormed(digest: seq<byte> -> string)
  {
    forall b :: |digest(b)| == 64
  }

  /** `downloadPath + '/' + version + '/'`, the directory of a release. */
  function Directory(downloadPath: string, version: string): string
  {
    downloadPath + "/" + version + "/"
  }

  /** `verifyFile`'s decision: the scraped digest against the digest of the stored bytes. */
  function VerifyStatus(expected: string, actual: string): (s: Status)
    ensures s == HashMatches || s == HashFailed
    ensures s == HashMatches <==> expected == actual
  {
    if expected == actual then HashMatches else HashFailed
  }

  /** An empty scraped digest never matches, so a downloaded file whose digest was not found
      always ends `'Hash failed'`. */
  lemma EmptyDigestFails(digest: seq<byte> -> string, body: seq<byte>)
    requires DigestWellFormed(digest)
    ensures VerifyStatus("", digest(body)) == HashFailed
  {
    assert |digest(body)| == 64;
  }

  /** One item after the loop: its updated object and the write its download makes, if any. */
  datatype ItemResult = ItemResult(item: FileObject, write: Option<Write>)

  /** One turn of the per-item loop. The item gets its path, `'downloading'` and size 0. A
      download is made iff the file is absent or empty, or downloads are forced. The download
      opens (and so empties) the file first; on a 200 the body is stored, the size is the body's
      and the digest is checked; on any other code the item stays `'downloading'` and the file
      stays empty. */
  function FetchItem(item: FileObject, dir: string, fs: FileSystem, f: Fetcher): (r: ItemResult)
    ensures r.item.url == item.url && r.item.filename == item.filename
    ensures r.item.sha256 == item.sha256 && r.item.filepath == dir + item.filename
    ensures r.write.Some? <==> !FileExists(fs, dir + item.filename) || f.redownload
    ensures r.write.Some? ==> r.write.value.path == dir + item.filename
    ensures r.write.None? ==> r.item.status == Downloading && r.item.size == 0
    ensures r.write.Some? && f.fetch(item.url).statusCode == 200 ==>
      var body := f.fetch(item.url).body;
      && r.write.value.content == Bytes(body) && r.item.size == |body|
      && (r.item.status == HashMatches <==> item.sha256 == f.digest(body))
      && (r.item.status == HashFailed <==> item.sha256 != f.digest(body))
    ensures r.write.Some? && f.fetch(item.url).statusCode != 200 ==>
      && r.write.value.content == Bytes([])
      && r.item.status == Downloading && r.item.size == 0
  {
    var path := dir + item.filename;
    var started := item.(filepath := path, status := Downloading, size := 0);
    if FileExists(fs, path) && !f.redownload then ItemResult(started, None)
    else
      var resp := f.fetch(item.url);
      if resp.statusCode == 200 then
        var status := VerifyStatus(item.sha256, f.digest(resp.body));
        ItemResult(started.(status := status, size := |resp.body|), Some(Write(path, Bytes(resp.body))))
      else ItemResult(started, Some(Write(path, Bytes([]))))
  }

  function WriteOf(r: ItemResult): seq<Write>
  {
    match r.write
    case Some(w) => [w]
    case None => []
  }

  /** The whole loop: the items it leaves and the writes its downloads make, in order. */
  datatype Batch = Batch(items: seq<FileObject>, writes: seq<Write>)

  function FetchBatch(objs: seq<FileObject>, dir: string, fs: FileSystem, f: Fetcher): (b: Batch)
    ensures |b.items| == |objs| && |b.writes| <= |objs|
    decreases |objs|
  {
    if objs == [] then Batch([], [])
    else
      var n := |objs|;
      var b := FetchBatch(objs[..n - 1], dir, fs, f);
      var r := FetchItem(objs[n - 1], dir, fs, f);
      Batch(b.items + [r.item], b.writes + WriteOf(r))
  }

  /** The loop leaves one item per object, each as its turn left it. */
  lemma {:induction false} BatchItems(objs: seq<FileObject>, dir: string, fs: FileSystem, f: Fetcher)
    ensures var b := FetchBatch(objs, dir, fs, f);
      && |b.items| == |objs|
      && forall i :: 0 <= i < |objs| ==> b.items[i] == FetchItem(objs[i], dir, fs, f).item
    decreases |objs|
  {
    if objs != [] {
      var n := |objs|;
      var init := objs[..n - 1];
      BatchItems(init, dir, fs, f);
      var b := FetchBatch(init, dir, fs, f);
      var items := FetchBatch(objs, dir, fs, f).items;
      assert items == b.items + [FetchItem(objs[n - 1], dir, fs, f).item];
      forall i | 0 <= i < n ensures items[i] == FetchItem(objs[i], dir, fs, f).item {
        if i < n - 1 {
          assert init[i] == objs[i];
        }
      }
    }
  }

  /** The loop writes nothing when no turn downloads. */
  lemma {:induction false} BatchQuiet(objs: seq<FileObject>, dir: string, fs: FileSystem, f: Fetcher)
    requires forall i :: 0 <= i < |objs| ==> FetchItem(objs[i], dir, fs, f).write.None?
    ensures FetchBatch(objs, dir, fs, f).writes == []
    decreases |objs|
  {
    if objs != [] {
      var n := |objs|;
      var init := objs[..n - 1];
      forall i | 0 <= i < n - 1 ensures FetchItem(init[i], dir, fs, f).write.None? {
        assert init[i] == objs[i];
      }
      BatchQuiet(init, dir, fs, f);
    }
  }

  /** Every item that downloads contributes its write to the loop's writes. */
  lemma {:induction false} BatchWritesKept(objs: seq<FileObject>, dir: string, fs: FileSystem, f: Fetcher)
    ensures forall i :: 0 <= i < |objs| && FetchItem(objs[i], dir, fs, f).write.Some? ==>
      FetchItem(objs[i], dir, fs, f).write.value in FetchBatch(objs, dir, fs, f).writes
    decreases |objs|
  {
    if objs != [] {
      var n := |objs|;
      var init := objs[..n - 1];
      BatchWritesKept(init, dir, fs, f);
      var b := FetchBatch(init, dir, fs, f);
      assert FetchBatch(objs, dir, fs, f).writes == b.writes + WriteOf(FetchItem(objs[n - 1], dir, fs, f));
      forall i | 0 <= i < n - 1 ensures FetchItem(objs[i], dir, fs, f) == FetchItem(init[i], dir, fs, f) {
        assert init[i] == objs[i];
      }
    }
  }

  /** Every write of the loop comes from an item that downloads. */
  lemma {:induction false} BatchWritesFrom(objs: seq<FileObject>, dir: string, fs: FileSystem, f: Fetcher)
    ensures forall w :: w in FetchBatch(objs, dir, fs, f).writes ==>
      exists i :: 0 <= i < |objs| && FetchItem(objs[i], dir, fs, f).write == Some(w)
    decreases |objs|
  {
    if objs != [] {
      var n := |objs|;
      var init := objs[..n - 1];
      BatchWritesFrom(init, dir, fs, f);
      var b := FetchBatch(init, dir, fs, f);
      var r := FetchItem(objs[n - 1], dir, fs, f);
      assert FetchBatch(objs, dir, fs, f).writes == b.writes + WriteOf(r);
      forall w | w in FetchBatch(objs, dir, fs, f).writes
        ensures exists i :: 0 <= i < n && FetchItem(objs[i], dir, fs, f).write == Some(w)
      {
        if w in b.writes {
          var i :| 0 <= i < n - 1 && FetchItem(init[i], dir, fs, f).write == Some(w);
          assert init[i] == objs[i];
        } else {
          assert r.write == Some(w);
        }
      }
    }
  }

  /** The writes of the loop are exactly those of the items that download. */
  lemma BatchWrites(objs: seq<FileObject>, dir: string, fs: FileSystem, f: Fetcher)
    ensures forall i :: 0 <= i < |objs| && FetchItem(objs[i], dir, fs, f).write.Some? ==>
      FetchItem(objs[i], dir, fs, f).write.value in FetchBatch(objs, dir, fs, f).writes
    ensures forall w :: w in FetchBatch(objs, dir, fs, f).writes ==>
      exists i :: 0 <= i < |objs| && FetchItem(objs[i], dir, fs, f).write == Some(w)
  {
    BatchWritesKept(objs, dir, fs, f);
    BatchWritesFrom(objs, dir, fs, f);
  }

  /** One turn of the per-item loop: the item's path and state set, the existence check, and,
      when the file is downloaded, the response stored and the digest checked. */
  method FetchOne(item: FileObject, dir: string, fs: FileSystem, f: Fetcher)
    returns (updated: FileObject, write: Option<Write>)
    ensures ItemResult(updated, write) == FetchItem(item, dir, fs, f)
  {
    var filename := dir + item.filename;
    updated := item.(filepath := filename, status := Downloading, size := 0);
    write := None;
    if !FileExists(fs, filename) || f.redownload {
      var resp := f.fetch(updated.url);
      if resp.statusCode == 200 {
        write := Some(Write(filename, Bytes(resp.body)));
        updated := updated.(size := |resp.body|);
        updated := updated.(status := VerifyStatus(updated.sha256, f.digest(resp.body)));
      } else {
        write := Some(Write(filename, Bytes([])));
      }
    }
  }

  /** The per-item loop of the handler: every item is given its path and state in turn, and its
      download, if any, is queued. The items are collected in order. */
  method FetchAll(objs: seq<FileObject>, dir: string, fs: FileSystem, f: Fetcher)
    returns (items: seq<FileObject>, writes: seq<Write>)
    ensures Batch(items, writes) == FetchBatch(objs, dir, fs, f)
  {
    items := [];
    writes := [];
    var i := 0;
    while i < |objs|
      invariant 0 <= i <= |objs|
      invariant Batch(items, writes) == FetchBatch(objs[..i], dir, fs, f)
    {
      assert objs[..i + 1][..i] == objs[..i];
      var updated, write := FetchOne(objs[i], dir, fs, f);
      items := items + [updated];
      if write.Some? {
        writes := writes + [write.value];
      }
      i := i + 1;
    }
    assert objs[..i] == objs;
  }

  /** File objects are built from links, so each file name is the link's last piece. */
  predicate BuiltFromLinks(objs: seq<FileObject>)
  {
    forall i :: 0 <= i < |objs| ==> objs[i].filename == FileName(objs[i].url)
  }

  /** Every download writes directly inside the release directory. */
  lemma BatchWritesInDirectory(objs: seq<FileObject>, dir: string, fs: FileSystem, f: Fetcher)
    requires BuiltFromLinks(objs)
    ensures forall w :: w in FetchBatch(objs, dir, fs, f).writes ==>
      exists name :: w.path == dir + name && '/' !in name
  {
    BatchWrites(objs, dir, fs, f);
    forall w | w in FetchBatch(objs, dir, fs, f).writes
      ensures exists name :: w.path == dir + name && '/' !in name
    {
      var i :| 0 <= i < |objs| && FetchItem(objs[i], dir, fs, f).write == Some(w);
      FileNameShape(objs[i].url);
    }
  }

  /** When every download that is made is answered with a non-empty 200, the writes of a pass
      hold no empty content. */
  lemma WritesNonEmpty(objs: seq<FileObject>, dir: string, fs: FileSystem, f: Fetcher)
    requires forall i :: 0 <= i < |objs| && FetchItem(objs[i], dir, fs, f).write.Some? ==>
      f.fetch(objs[i].url).statusCode == 200 && f.fetch(objs[i].url).body != []
    ensures var ws := FetchBatch(objs, dir, fs, f).writes;
      forall k :: 0 <= k < |ws| ==> !IsEmpty(ws[k].content)
  {
    var ws := FetchBatch(objs, dir, fs, f).writes;
    BatchWrites(objs, dir, fs, f);
    forall k | 0 <= k < |ws| ensures !IsEmpty(ws[k].content) {
      assert ws[k] in ws;
    }
  }

  /** After such a pass every object's file is present, so the next pass without
      `redownload` skips it. */
  lemma SkippedAfterPass(objs: seq<FileObject>, dir: string, fs: FileSystem, f: Fetcher, i: nat)
    requires i < |objs|
    requires forall w :: w in FetchBatch(objs, dir, fs, f).writes ==> !IsEmpty(w.content)
    ensures var fs' := Apply(fs, FetchBatch(objs, dir, fs, f).writes);
      FetchItem(objs[i], dir, fs', f.(redownload := false)).write.None?
  {
    var ws := FetchBatch(objs, dir, fs, f).writes;
    forall k | 0 <= k < |ws| ensures !IsEmpty(ws[k].content) {
      assert ws[k] in ws;
    }
    var r := FetchItem(objs[i], dir, fs, f);
    if r.write.Some? {
      BatchWritesKept(objs, dir, fs, f);
      var k :| 0 <= k < |ws| && ws[k] == r.write.value;
    }
    ApplyNonEmpty(fs, ws, dir + objs[i].filename);
  }

  /** After a pass in which every download answered 200 with a non-empty body, a second pass
      that does not force downloads makes no request and writes nothing, and leaves every item
      `'downloading'` with size 0. */
  lemma SecondPassIdle(objs: seq<FileObject>, dir: string, fs: FileSystem, f: Fetcher)
    requires forall i :: 0 <= i < |objs| && FetchItem(objs[i], dir, fs, f).write.Some? ==>
      f.fetch(objs[i].url).statusCode == 200 && f.fetch(objs[i].url).body != []
    ensures var fs' := Apply(fs, FetchBatch(objs, dir, fs, f).writes);
      var again := FetchBatch(objs, dir, fs', f.(redownload := false));
      && again.writes == [] && |again.items| == |objs|
      && forall i :: 0 <= i < |objs| ==> again.items[i].status == Downloading && again.items[i].size == 0
  {
    var fs' := Apply(fs, FetchBatch(objs, dir, fs, f).writes);
    var f' := f.(redownload := false);
    WritesNonEmpty(objs, dir, fs, f);
    BatchWrites(objs, dir, fs, f);
    forall i | 0 <= i < |objs| ensures FetchItem(objs[i], dir, fs', f').write.None? {
      SkippedAfterPass(objs, dir, fs, f, i);
    }
    BatchItems(objs, dir, fs', f');
    BatchQuiet(objs, dir, fs', f');
  }

  /** A download answered with a code other than 200 leaves an empty file, which counts as
      absent, so the next pass requests the file again (when no other item has the same file
      name). */
  lemma FailedDownloadRetried(objs: seq<FileObject>, dir: string, fs: FileSystem, f: Fetcher, i: nat)
    requires i < |objs| && FetchItem(objs[i], dir, fs, f).write.Some?
    requires f.fetch(objs[i].url).statusCode != 200
    requires forall j :: 0 <= j < |objs| && j != i ==> objs[j].filename != objs[i].filename
    ensures var fs' := Apply(fs, FetchBatch(objs, dir, fs, f).writes);
      && !FileExists(fs', dir + objs[i].filename)
      && FetchItem(objs[i], dir, fs', f).write.Some?
  {
    var b := FetchBatch(objs, dir, fs, f);
    BatchWrites(objs, dir, fs, f);
    var path := dir + objs[i].filename;
    var w := FetchItem(objs[i], dir, fs, f).write.value;
    var k :| 0 <= k < |b.writes| && b.writes[k] == w;
    forall k' | 0 <= k' < |b.writes| && b.writes[k'].path == path
      ensures b.writes[k'].content == Bytes([])
    {
      assert b.writes[k'] in b.writes;
      var j :| 0 <= j < |objs| && FetchItem(objs[j], dir, fs, f).write == Some(b.writes[k']);
      assert dir + objs[j].filename == dir + objs[i].filename;
      assert objs[j].filename == (dir + objs[j].filename)[|dir|..];
    }
    ApplySameContent(fs, b.writes, path, Bytes([]));
  }
}
