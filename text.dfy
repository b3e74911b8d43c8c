/** The JavaScript string operations the release getter relies on: `split` and `join` on one
    character, a global `replace` of a literal, and the order that `Array.prototype.sort` uses
    for strings by default. Strings are sequences of characters; offsets count characters. */
module Text {

  datatype Option<T> = None | Some(value: T)

  /** `s.split(sep)` for a one-character separator: the pieces between the separators, in order. */
  function Split(s: string, sep: char): (pieces: seq<string>)
    ensures |pieces| >= 1
    ensures pieces[0] <= s
    ensures forall i :: 0 <= i < |pieces| ==> sep !in pieces[i]
    decreases |s|
  {
    if s == [] then [""]
    else
      var rest := Split(s[1..], sep);
      if s[0] == sep then [""] + rest
      else [[s[0]] + rest[0]] + rest[1..]
  }

  /** `pieces.join(sep)` for a one-character separator. */
  function Join(pieces: seq<string>, sep: char): string
    decreases |pieces|
  {
    if |pieces| == 0 then ""
    else if |pieces| == 1 then pieces[0]
    else pieces[0] + [sep] + Join(pieces[1..], sep)
  }

  /** Joining the pieces of a split gives back the split string. */
  lemma {:induction false} JoinSplit(s: string, sep: char)
    ensures Join(Split(s, sep), sep) == s
    decreases |s|
  {
    if s != [] {
      var rest := Split(s[1..], sep);
      JoinSplit(s[1..], sep);
      if s[0] == sep {
        assert Split(s, sep) == [""] + rest;
        assert ([""] + rest)[1..] == rest;
      } else {
        var pieces := [[s[0]] + rest[0]] + rest[1..];
        assert Split(s, sep) == pieces;
        if |rest| > 1 {
          assert pieces[1..] == rest[1..];
          assert Join(rest, sep) == rest[0] + [sep] + Join(rest[1..], sep);
        }
      }
    }
  }

  lemma {:induction false} SplitWithoutSeparator(a: string, sep: char)
    requires sep !in a
    ensures Split(a, sep) == [a]
    decreases |a|
  {
    if a != [] {
      SplitWithoutSeparator(a[1..], sep);
      assert [a[0]] + a[1..] == a;
    }
  }

  lemma {:induction false} SplitAfterPiece(a: string, b: string, sep: char)
    requires sep !in a
    ensures Split(a + [sep] + b, sep) == [a] + Split(b, sep)
    decreases |a|
  {
    var s := a + [sep] + b;
    if a == [] {
      assert s[1..] == b;
    } else {
      assert s[1..] == a[1..] + [sep] + b;
      SplitAfterPiece(a[1..], b, sep);
      assert [a[0]] + a[1..] == a;
    }
  }

  /** Splitting a join gives back the pieces, when no piece holds the separator. */
  lemma {:induction false} SplitJoin(pieces: seq<string>, sep: char)
    requires |pieces| >= 1
    requires forall i :: 0 <= i < |pieces| ==> sep !in pieces[i]
    ensures Split(Join(pieces, sep), sep) == pieces
    decreases |pieces|
  {
    if |pieces| == 1 {
      SplitWithoutSeparator(pieces[0], sep);
    } else {
      SplitJoin(pieces[1..], sep);
      SplitAfterPiece(pieces[0], Join(pieces[1..], sep), sep);
      assert [pieces[0]] + pieces[1..] == pieces;
    }
  }

  /** The join ends with the separator and the last piece. */
  lemma {:induction false} JoinLast(pieces: seq<string>, sep: char)
    requires |pieces| >= 2
    ensures Join(pieces, sep) == Join(pieces[..|pieces| - 1], sep) + [sep] + pieces[|pieces| - 1]
    decreases |pieces|
  {
    var n := |pieces|;
    if n > 2 {
      JoinLast(pieces[1..], sep);
      assert pieces[1..][..n - 2] == pieces[..n - 1][1..];
      assert pieces[1..][n - 2] == pieces[n - 1];
    }
  }

  /** `q` stands in `s` at offset `i`. */
  predicate OccursAt(s: string, i: nat, q: string)
  {
    i + |q| <= |s| && s[i..i + |q|] == q
  }

  /** `s.includes(q)`. */
  predicate Occurs(s: string, q: string)
  {
    exists i: nat | i <= |s| :: OccursAt(s, i, q)
  }

  lemma OccursShift(s: string, k: nat, i: nat, q: string)
    requires k <= |s| && OccursAt(s[k..], i, q)
    ensures OccursAt(s, i + k, q)
  {
    assert s[k..][i..i + |q|] == s[i + k..i + k + |q|];
  }

  /** `s.replace(/pat/g, rep)` for a literal pattern: every occurrence of `pat`, leftmost first
      and without overlap, replaced by `rep`. */
  function ReplaceAll(s: string, pat: string, rep: string): (r: string)
    requires |pat| > 0
    ensures pat == rep ==> r == s
    decreases |s|
  {
    if |s| < |pat| then s
    else if s[..|pat|] == pat then rep + ReplaceAll(s[|pat|..], pat, rep)
    else [s[0]] + ReplaceAll(s[1..], pat, rep)
  }

  /** A text without the pattern is left as it is. */
  lemma {:induction false} ReplaceAbsent(s: string, pat: string, rep: string)
    requires |pat| > 0 && !Occurs(s, pat)
    ensures ReplaceAll(s, pat, rep) == s
    decreases |s|
  {
    if |s| >= |pat| {
      assert !OccursAt(s, 0, pat);
      forall i: nat | i <= |s| - 1 ensures !OccursAt(s[1..], i, pat) {
        if OccursAt(s[1..], i, pat) {
          OccursShift(s, 1, i, pat);
        }
      }
      ReplaceAbsent(s[1..], pat, rep);
    }
  }

  /** Where the pattern does not start, the first character is kept. */
  lemma ReplaceKeepsFirst(s: string, pat: string, rep: string)
    requires |pat| > 0 && |s| >= |pat| && !OccursAt(s, 0, pat)
    ensures ReplaceAll(s, pat, rep) == [s[0]] + ReplaceAll(s[1..], pat, rep)
  {
  }

  lemma NoEarlierOccurrence(a: string, b: string, pat: string)
    requires |a| > 0
    requires forall i :: 0 <= i < |a| ==> !OccursAt(a + pat + b, i, pat)
    ensures forall i :: 0 <= i < |a| - 1 ==> !OccursAt(a[1..] + pat + b, i, pat)
  {
    var s := a + pat + b;
    assert s[1..] == a[1..] + pat + b;
    forall i | 0 <= i < |a| - 1 ensures !OccursAt(s[1..], i, pat) {
      if OccursAt(s[1..], i, pat) {
        OccursShift(s, 1, i, pat);
      }
    }
  }

  /** The leftmost occurrence is replaced, the text before it kept, and the replacement goes on
      after it. */
  lemma {:induction false} ReplaceLeftmost(a: string, b: string, pat: string, rep: string)
    requires |pat| > 0
    requires forall i :: 0 <= i < |a| ==> !OccursAt(a + pat + b, i, pat)
    ensures ReplaceAll(a + pat + b, pat, rep) == a + rep + ReplaceAll(b, pat, rep)
    decreases |a|
  {
    var s := a + pat + b;
    if a == [] {
      assert s == pat + b && s[..|pat|] == pat && s[|pat|..] == b;
    } else {
      ReplaceKeepsFirst(s, pat, rep);
      NoEarlierOccurrence(a, b, pat);
      ReplaceLeftmost(a[1..], b, pat, rep);
      assert s[1..] == a[1..] + pat + b;
      assert s[0] == a[0] && a == [a[0]] + a[1..];
    }
  }

  /** Up to the first inserted `c`, a replacement leaves the text as it was. */
  lemma {:induction false} ReplacePrefix(s: string, pat: string, c: char, j: nat)
    requires |pat| > 0 && c !in pat
    requires j <= |ReplaceAll(s, pat, [c])|
    ensures c !in ReplaceAll(s, pat, [c])[..j] ==> j <= |s| && ReplaceAll(s, pat, [c])[..j] == s[..j]
    decreases |s|
  {
    var r := ReplaceAll(s, pat, [c]);
    if |s| < |pat| {
    } else if s[..|pat|] == pat {
      if j > 0 {
        assert r[..j][0] == c;
      }
    } else if j > 0 {
      var r' := ReplaceAll(s[1..], pat, [c]);
      assert r == [s[0]] + r';
      assert r[..j] == [s[0]] + r'[..j - 1];
      ReplacePrefix(s[1..], pat, c, j - 1);
      if c !in r[..j] {
        assert c !in r'[..j - 1];
        assert s[..j] == [s[0]] + s[1..][..j - 1];
      }
    }
  }

  /** Replacing every `pat` by a character foreign to `pat` leaves no `pat` behind. */
  lemma {:induction false} ReplaceRemoves(s: string, pat: string, c: char, i: nat)
    requires |pat| > 0 && c !in pat
    ensures !OccursAt(ReplaceAll(s, pat, [c]), i, pat)
    decreases |s|
  {
    var r := ReplaceAll(s, pat, [c]);
    if |s| < |pat| {
    } else if s[..|pat|] == pat {
      var r' := ReplaceAll(s[|pat|..], pat, [c]);
      assert r == [c] + r';
      if i == 0 {
        assert r[0] == c;
      } else {
        ReplaceRemoves(s[|pat|..], pat, c, i - 1);
        if i + |pat| <= |r| {
          assert r[i..i + |pat|] == r'[i - 1..i - 1 + |pat|];
        }
      }
    } else {
      var r' := ReplaceAll(s[1..], pat, [c]);
      assert r == [s[0]] + r';
      if i == 0 {
        if |pat| <= |r| {
          ReplacePrefix(s, pat, c, |pat|);
        }
      } else {
        ReplaceRemoves(s[1..], pat, c, i - 1);
        if i + |pat| <= |r| {
          assert r[i..i + |pat|] == r'[i - 1..i - 1 + |pat|];
        }
      }
    }
  }

  /** A string free of the inserted character occurs after the replacement only if it occurred
      before it. */
  lemma {:induction false} ReplaceCreatesNothing(s: string, pat: string, c: char, q: string, i: nat)
    requires |pat| > 0 && c !in pat && |q| > 0 && c !in q
    ensures OccursAt(ReplaceAll(s, pat, [c]), i, q) ==> Occurs(s, q)
    decreases |s|
  {
    var r := ReplaceAll(s, pat, [c]);
    if |s| < |pat| {
      if OccursAt(r, i, q) {
        assert OccursAt(s, i, q);
      }
    } else if s[..|pat|] == pat {
      var r' := ReplaceAll(s[|pat|..], pat, [c]);
      assert r == [c] + r';
      if i == 0 {
        assert r[0] == c;
      } else if OccursAt(r, i, q) {
        assert r[i..i + |q|] == r'[i - 1..i - 1 + |q|];
        ReplaceCreatesNothing(s[|pat|..], pat, c, q, i - 1);
        var k: nat :| k <= |s[|pat|..]| && OccursAt(s[|pat|..], k, q);
        OccursShift(s, |pat|, k, q);
      }
    } else if OccursAt(r, i, q) {
      var r' := ReplaceAll(s[1..], pat, [c]);
      assert r == [s[0]] + r';
      if i == 0 {
        assert r[..|q|] == q;
        ReplacePrefix(s, pat, c, |q|);
        assert OccursAt(s, 0, q);
      } else {
        assert r[i..i + |q|] == r'[i - 1..i - 1 + |q|];
        ReplaceCreatesNothing(s[1..], pat, c, q, i - 1);
        var k: nat :| k <= |s[1..]| && OccursAt(s[1..], k, q);
        OccursShift(s, 1, k, q);
      }
    }
  }

  /** A separator-free string that occurs in a piece of a split occurs in the split string. */
  lemma {:induction false} OccursInPiece(s: string, sep: char, q: string, k: nat, i: nat)
    requires |q| > 0 && sep !in q
    requires k < |Split(s, sep)| && OccursAt(Split(s, sep)[k], i, q)
    ensures Occurs(s, q)
    decreases |s|
  {
    if s != [] {
      var rest := Split(s[1..], sep);
      if s[0] == sep {
        assert Split(s, sep) == [""] + rest;
        if k == 0 {
          assert false;
        }
        OccursInPiece(s[1..], sep, q, k - 1, i);
        var j: nat :| j <= |s[1..]| && OccursAt(s[1..], j, q);
        OccursShift(s, 1, j, q);
      } else {
        var head := [s[0]] + rest[0];
        assert Split(s, sep) == [head] + rest[1..];
        if k > 0 {
          assert Split(s, sep)[k] == rest[k];
          OccursInPiece(s[1..], sep, q, k, i);
          var j: nat :| j <= |s[1..]| && OccursAt(s[1..], j, q);
          OccursShift(s, 1, j, q);
        } else if i > 0 {
          assert head[i..i + |q|] == rest[0][i - 1..i - 1 + |q|];
          OccursInPiece(s[1..], sep, q, 0, i - 1);
          var j: nat :| j <= |s[1..]| && OccursAt(s[1..], j, q);
          OccursShift(s, 1, j, q);
        } else {
          assert rest[0] <= s[1..];
          assert head == s[..|head|];
          assert s[0..|q|] == head[0..|q|];
          assert OccursAt(s, 0, q);
        }
      }
    }
  }

  /** `a < b` on JavaScript strings, the order `Array.prototype.sort` uses by default:
      lexicographic by character code, a proper prefix before its extensions. */
  predicate Below(a: string, b: string)
    decreases |a|
  {
    if a == [] then b != []
    else if b == [] then false
    else if a[0] == b[0] then Below(a[1..], b[1..])
    else a[0] < b[0]
  }

  lemma {:induction false} BelowIrreflexive(a: string)
    ensures !Below(a, a)
    decreases |a|
  {
    if a != [] {
      BelowIrreflexive(a[1..]);
    }
  }

  lemma {:induction false} BelowTransitive(a: string, b: string, c: string)
    requires Below(a, b) && Below(b, c)
    ensures Below(a, c)
    decreases |a|
  {
    if a != [] && b != [] && c != [] && a[0] == b[0] && b[0] == c[0] {
      BelowTransitive(a[1..], b[1..], c[1..]);
    }
  }

  /** Any two different strings are ordered one way or the other, and never both. */
  lemma {:induction false} BelowTotal(a: string, b: string)
    ensures a == b || Below(a, b) || Below(b, a)
    ensures !(Below(a, b) && Below(b, a))
    decreases |a|
  {
    if a != [] && b != [] && a[0] == b[0] {
      BelowTotal(a[1..], b[1..]);
      if a[1..] == b[1..] {
        assert a == [a[0]] + a[1..] && b == [b[0]] + b[1..];
      }
    }
  }

  /** The value a loop ends with that starts from `""` and overwrites it with every value found:
      the last one found. */
  function LastFound(found: seq<Option<string>>): string
    decreases |found|
  {
    if found == [] then ""
    else
      match found[|found| - 1]
      case Some(h) => h
      case None => LastFound(found[..|found| - 1])
  }

  /** With nothing found the value stays `""`; otherwise it is the last value found. */
  lemma {:induction false} LastFoundIsLast(found: seq<Option<string>>)
    ensures (forall k :: 0 <= k < |found| ==> found[k].None?) ==> LastFound(found) == ""
    ensures forall k :: 0 <= k < |found| ==>
      (found[k].Some? && forall j :: k < j < |found| ==> found[j].None?)
      ==> LastFound(found) == found[k].value
    decreases |found|
  {
    if found != [] {
      var init := found[..|found| - 1];
      assert forall k :: 0 <= k < |init| ==> init[k] == found[k];
      LastFoundIsLast(init);
    }
  }

  /** When no value found is empty, the result is `""` only if nothing was found. */
  lemma {:induction false} LastFoundEmpty(found: seq<Option<string>>)
    requires forall k :: 0 <= k < |found| && found[k].Some? ==> found[k].value != ""
    ensures LastFound(found) == "" ==> forall k :: 0 <= k < |found| ==> found[k].None?
    decreases |found|
  {
    if found != [] {
      var init := found[..|found| - 1];
      assert forall k :: 0 <= k < |init| ==> init[k] == found[k];
      LastFoundEmpty(init);
    }
  }
}
