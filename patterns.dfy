/** The pieces the getter's regular expressions are made of, written out by hand: the character
    classes they use, maximal runs of a class (what a greedy `+` takes when the next pattern
    element cannot match a class character), strings spliced into a pattern unescaped, and the
    ASCII case folding of the `i` flag. */
module Patterns {
  import opened Text

  predicate IsDigit(c: char) { '0' <= c <= '9' }

  predicate IsAsciiLetter(c: char) { 'a' <= c <= 'z' || 'A' <= c <= 'Z' }

  /** `[a-zA-Z0-9]` */
  predicate IsAlnum(c: char) { IsDigit(c) || IsAsciiLetter(c) }

  /** `[0-9a-zA-Z\.]`, the characters of a release version. */
  predicate IsVersionChar(c: char) { IsAlnum(c) || c == '.' }

  /** `[a-zA-Z0-9:.\-\/]`, the characters of a link before the version. */
  predicate IsLinkChar(c: char) { IsAlnum(c) || c == ':' || c == '.' || c == '-' || c == '/' }

  /** `[a-zA-Z0-9:._\-\/]`, the characters of a link after the version. */
  predicate IsLinkTailChar(c: char) { IsLinkChar(c) || c == '_' }

  /** The line terminators of ECMAScript, which `.` does not match. */
  predicate IsLineTerminator(c: char)
  {
    c == '\n' || c == '\r' || c == '\U{2028}' || c == '\U{2029}'
  }

  /** `\s`: the white space and line terminator characters of ECMAScript. */
  predicate IsWhitespace(c: char)
  {
    c == '\t' || c == '\U{B}' || c == '\U{C}' || c == ' ' || c == '\U{A0}' || c == '\U{FEFF}'
    || c == '\U{1680}' || ('\U{2000}' <= c <= '\U{200A}') || c == '\U{202F}' || c == '\U{205F}'
    || c == '\U{3000}' || IsLineTerminator(c)
  }

  /** Every character of `s[i..j]` is in the class. */
  predicate AllIn(s: string, i: nat, j: nat, inClass: char -> bool)
    requires i <= j <= |s|
  {
    forall k :: i <= k < j ==> inClass(s[k])
  }

  /** The number of class characters in a row from `i`: what a greedy `[...]+` takes. */
  function Run(s: string, i: nat, inClass: char -> bool): (n: nat)
    requires i <= |s|
    ensures i + n <= |s|
    ensures AllIn(s, i, i + n, inClass)
    ensures i + n == |s| || !inClass(s[i + n])
    decreases |s| - i
  {
    if i == |s| || !inClass(s[i]) then 0 else 1 + Run(s, i + 1, inClass)
  }

  /** A run of class characters that ends at the end of `s` or before a character outside the
      class is the maximal run. */
  lemma RunIsMaximal(s: string, i: nat, m: nat, inClass: char -> bool)
    requires i + m <= |s| && AllIn(s, i, i + m, inClass)
    requires i + m == |s| || !inClass(s[i + m])
    ensures Run(s, i, inClass) == m
  {
  }

  /** A character of a string spliced unescaped into a pattern: `.` matches any character but a
      line terminator, any other character itself. */
  predicate Interpolated(pc: char, c: char)
  {
    if pc == '.' then !IsLineTerminator(c) else pc == c
  }

  /** The spliced string `pat` matches `s` at offset `i`. */
  predicate InterpolatedAt(s: string, i: nat, pat: string)
  {
    i + |pat| <= |s| && forall k :: 0 <= k < |pat| ==> Interpolated(pat[k], s[i + k])
  }

  /** ASCII upper case to lower case; other characters unchanged. */
  function Fold(c: char): (f: char)
    ensures IsAsciiLetter(c) <==> IsAsciiLetter(f)
    ensures 'A' <= c <= 'Z' ==> f != c
    ensures !('A' <= c <= 'Z') ==> f == c
  {
    if 'A' <= c <= 'Z' then (c as int + 32) as char else c
  }

  /** `a` and `b` are one ASCII letter in its two cases. */
  predicate CaseVariants(a: char, b: char)
  {
    ('A' <= a <= 'Z' && b as int == a as int + 32) || ('A' <= b <= 'Z' && a as int == b as int + 32)
  }

  /** Under the `i` flag two characters match exactly when they are equal or are the same ASCII
      letter in different case. */
  lemma FoldSame(a: char, b: char)
    ensures Fold(a) == Fold(b) <==> a == b || CaseVariants(a, b)
  {
  }

  /** A character of a spliced string under the `i` flag. */
  predicate InterpolatedCi(pc: char, c: char)
  {
    if pc == '.' then !IsLineTerminator(c) else Fold(pc) == Fold(c)
  }

  predicate InterpolatedCiAt(s: string, i: nat, pat: string)
  {
    i + |pat| <= |s| && forall k :: 0 <= k < |pat| ==> InterpolatedCi(pat[k], s[i + k])
  }

  /** The fixed text `lit` stands at offset `i` of `s`, letters in either case (the `i` flag). */
  predicate LiteralCiAt(s: string, i: nat, lit: string)
  {
    i + |lit| <= |s| && forall k :: 0 <= k < |lit| ==> Fold(lit[k]) == Fold(s[i + k])
  }

  /** A fixed text that starts with a character other than a letter starts with exactly that
      character in every case-insensitive match. */
  lemma LiteralCiHead(s: string, i: nat, lit: string)
    requires |lit| > 0 && !IsAsciiLetter(lit[0]) && LiteralCiAt(s, i, lit)
    ensures s[i] == lit[0]
  {
    assert Fold(lit[0]) == Fold(s[i + 0]);
  }

  /** A run of letters and digits followed by a fixed text that starts with `<` is maximal. */
  lemma RunBeforeTag(s: string, i: nat, m: nat, lit: string)
    requires i + m <= |s| && AllIn(s, i, i + m, IsAlnum)
    requires |lit| > 0 && lit[0] == '<' && LiteralCiAt(s, i + m, lit)
    ensures Run(s, i, IsAlnum) == m
  {
    LiteralCiHead(s, i + m, lit);
    RunIsMaximal(s, i, m, IsAlnum);
  }

  /** The first offset in `[from, to)` at which `matchAt` succeeds: how `exec` tries a pattern at
      one offset after another and stops at the first success. */
  function FirstMatch<T>(matchAt: nat -> Option<T>, from: nat, to: nat): (r: Option<nat>)
    ensures r.Some? ==> from <= r.value < to && matchAt(r.value).Some?
    ensures r.Some? ==> (forall q :: from <= q < r.value ==> matchAt(q).None?)
    ensures r.None? ==> (forall q :: from <= q < to ==> matchAt(q).None?)
    decreases (to as int) - (from as int)
  {
    if from >= to then None
    else if matchAt(from).Some? then Some(from)
    else FirstMatch(matchAt, from + 1, to)
  }
}
