/** The checksum manifest (main.js:326-336): one line `<sha256> *<filename>` per file object,
    joined with line breaks, written to `SHA256SUMS` in the release directory. */
module Manifest {
  import opened Text
  import opened FileObjects
  import opened Fetch

  const SumsName := "SHA256SUMS"

  /** `element.sha256 + ' *' + element.filename` */
  function ManifestLine(o: FileObject): string
  {
    o.sha256 + " *" + o.filename
  }

  /** The manifest's lines, in the order of the objects. */
  function ManifestLines(objs: seq<FileObject>): (lines: seq<string>)
    ensures |lines| == |objs|
    ensures forall i :: 0 <= i < |objs| ==> lines[i] == ManifestLine(objs[i])
    decreases |objs|
  {
    if objs == [] then [] else ManifestLines(objs[..|objs| - 1]) + [ManifestLine(objs[|objs| - 1])]
  }

  /** `sums.join('\n')`: no line break after the last line. */
  function ManifestText(objs: seq<FileObject>): (text: string)
    ensures text == [] <==> objs == []
  {
    Join(ManifestLines(objs), '\n')
  }

  /** A manifest line split back at its first space: the digest before it, and after the `*`
      that follows it, the file name. */
  function ParseLine(line: string): Option<(string, string)>
  {
    if ' ' !in line then None
    else
      var i := FirstIndex(line, ' ');
      if i + 1 < |line| && line[i + 1] == '*' then Some((line[..i], line[i + 2..])) else None
  }

  function FirstIndex(s: string, c: char): (i: nat)
    requires c in s
    ensures i < |s| && s[i] == c && c !in s[..i]
    decreases |s|
  {
    if s[0] == c then 0
    else
      assert c in s[1..];
      1 + FirstIndex(s[1..], c)
  }

  /** Every manifest line gives back its digest and file name, as long as the digest holds no
      space. */
  lemma ParseManifestLine(o: FileObject)
    requires ' ' !in o.sha256
    ensures ParseLine(ManifestLine(o)) == Some((o.sha256, o.filename))
  {
    var line := ManifestLine(o);
    assert line[|o.sha256|] == ' ';
    var i := FirstIndex(line, ' ');
    assert line[..|o.sha256|] == o.sha256;
    assert i == |o.sha256|;
    assert line[i + 2..] == o.filename;
  }

  /** No manifest line holds a line break when no digest or file name does. */
  lemma ManifestLinesUnbroken(objs: seq<FileObject>)
    requires forall i :: 0 <= i < |objs| ==> '\n' !in objs[i].sha256 && '\n' !in objs[i].filename
    ensures forall i :: 0 <= i < |objs| ==> '\n' !in ManifestLines(objs)[i]
  {
    forall i | 0 <= i < |objs| ensures '\n' !in ManifestLines(objs)[i] {
      var o := objs[i];
      assert ManifestLines(objs)[i] == o.sha256 + " *" + o.filename;
    }
  }

  /** With at least one object and no line break in any digest or file name, the manifest
      splits back into one line per object, in order, each of which parses back to its object's
      digest and file name. Without objects the manifest is empty. */
  lemma ManifestRoundTrip(objs: seq<FileObject>)
    requires forall i :: 0 <= i < |objs| ==>
      '\n' !in objs[i].sha256 && '\n' !in objs[i].filename && ' ' !in objs[i].sha256
    ensures objs == [] ==> ManifestText(objs) == ""
    ensures objs != [] ==> Split(ManifestText(objs), '\n') == ManifestLines(objs)
    ensures forall i :: 0 <= i < |objs| ==>
      ParseLine(ManifestLines(objs)[i]) == Some((objs[i].sha256, objs[i].filename))
  {
    forall i | 0 <= i < |objs| ensures ParseLine(ManifestLines(objs)[i]) == Some((objs[i].sha256, objs[i].filename)) {
      ParseManifestLine(objs[i]);
    }
    if objs != [] {
      ManifestLinesUnbroken(objs);
      SplitJoin(ManifestLines(objs), '\n');
    }
  }

  lemma ManifestExample()
    ensures ManifestText([FileObject("u1", "a.npk", "aaa", "", Unset, 0),
                          FileObject("u2", "b.npk", "bbb", "", Unset, 0)])
            == "aaa *a.npk\nbbb *b.npk"
  {
    var a := FileObject("u1", "a.npk", "aaa", "", Unset, 0);
    var b := FileObject("u2", "b.npk", "bbb", "", Unset, 0);
    assert [a, b][..1] == [a];
    assert ManifestLines([a, b]) == [ManifestLine(a), ManifestLine(b)];
  }

  /** `createSumsFile(objs, dirPath)`: the lines collected one object at a time, then the file
      written; a failed write is caught and logged, leaving the file system as it was. */
  method CreateSumsFile(objs: seq<FileObject>, dirPath: string, fs: FileSystem, writable: string -> bool)
    returns (fs': FileSystem)
    ensures writable(dirPath + SumsName) ==> fs' == fs[dirPath + SumsName := Chars(ManifestText(objs))]
    ensures !writable(dirPath + SumsName) ==> fs' == fs
  {
    var sums: seq<string> := [];
    var i := 0;
    while i < |objs|
      invariant 0 <= i <= |objs|
      invariant sums == ManifestLines(objs[..i])
    {
      assert objs[..i + 1][..i] == objs[..i];
      sums := sums + [objs[i].sha256 + " *" + objs[i].filename];
      i := i + 1;
    }
    assert objs[..i] == objs;
    if writable(dirPath + SumsName) {
      fs' := fs[dirPath + SumsName := Chars(Join(sums, '\n'))];
    } else {
      fs' := fs;
    }
  }
}
