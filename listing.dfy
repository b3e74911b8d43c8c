/** How the downloaded listing page is cut into lines (main.js:417 and main.js:440). */
module Listing {
  import opened Text

  const TdClose := "td>"
  const LiClose := "li>"

  /** The lines the release and link scans read: every `td>` and then every `li>` of the page
      becomes a line break, and the text is split at line breaks. */
  function ContentLines(page: string): seq<string>
  {
    Split(ReplaceAll(ReplaceAll(page, TdClose, "\n"), LiClose, "\n"), '\n')
  }

  /** The lines the digest scan reads: the page split at line breaks only. */
  function PageLines(page: string): seq<string>
  {
    Split(page, '\n')
  }

  /** There is at least one content line; no content line holds a line break, a `td>` or an
      `li>`; and the lines joined with line breaks give back the page with each cell or item end
      turned into a line break. */
  lemma {:induction false} ContentLinesShape(page: string)
    ensures |ContentLines(page)| >= 1
    ensures Join(ContentLines(page), '\n') == ReplaceAll(ReplaceAll(page, TdClose, "\n"), LiClose, "\n")
    ensures forall k, i: nat :: 0 <= k < |ContentLines(page)| ==>
      '\n' !in ContentLines(page)[k] && !OccursAt(ContentLines(page)[k], i, TdClose) &&
      !OccursAt(ContentLines(page)[k], i, LiClose)
  {
    var once := ReplaceAll(page, TdClose, "\n");
    var twice := ReplaceAll(once, LiClose, "\n");
    var lines := ContentLines(page);
    JoinSplit(twice, '\n');
    forall k, i: nat | 0 <= k < |lines|
      ensures !OccursAt(lines[k], i, TdClose) && !OccursAt(lines[k], i, LiClose)
    {
      if OccursAt(lines[k], i, TdClose) {
        OccursInPiece(twice, '\n', TdClose, k, i);
        var j: nat :| j <= |twice| && OccursAt(twice, j, TdClose);
        ReplaceCreatesNothing(once, LiClose, '\n', TdClose, j);
        var j': nat :| j' <= |once| && OccursAt(once, j', TdClose);
        ReplaceRemoves(page, TdClose, '\n', j');
      }
      if OccursAt(lines[k], i, LiClose) {
        OccursInPiece(twice, '\n', LiClose, k, i);
        var j: nat :| j <= |twice| && OccursAt(twice, j, LiClose);
        ReplaceRemoves(once, LiClose, '\n', j);
      }
    }
  }

  /** The page lines joined with line breaks are the page, and no page line holds a line break. */
  lemma PageLinesShape(page: string)
    ensures Join(PageLines(page), '\n') == page
    ensures forall k :: 0 <= k < |PageLines(page)| ==> '\n' !in PageLines(page)[k]
  {
    JoinSplit(page, '\n');
  }
}
