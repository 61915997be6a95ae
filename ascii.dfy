/**
 * The character helpers the media-type code leans on: ASCII-only case
 * mapping (the project's ASCII class) and java.lang.String.trim.
 */
module Ascii {

  predicate IsAscii(c: char) { c as int < 128 }

  predicate AllAscii(s: string) { forall i :: 0 <= i < |s| ==> IsAscii(s[i]) }

  function LowerChar(c: char): char
  {
    if 'A' <= c <= 'Z' then (c as int + 32) as char else c
  }

  function UpperChar(c: char): char
  {
    if 'a' <= c <= 'z' then (c as int - 32) as char else c
  }

  /** ASCII.toLowerCase: only 'A'..'Z' change. */
  function Lower(s: string): string
  {
    seq(|s|, i requires 0 <= i < |s| => LowerChar(s[i]))
  }

  /** ASCII.toUpperCase: only 'a'..'z' change. */
  function Upper(s: string): string
  {
    seq(|s|, i requires 0 <= i < |s| => UpperChar(s[i]))
  }

  /**
   * String.trim: the start index moves past every leading character up to
   * U+0020, then the end index moves back past every trailing one.
   */
  function Trim(s: string): string
  {
    var st := TrimStart(s, 0);
    s[st..TrimEnd(s, st, |s|)]
  }

  /** The first index from i on whose character lies above U+0020, or |s|. */
  function TrimStart(s: string, i: nat): (st: nat)
    requires i <= |s|
    ensures i <= st <= |s|
    decreases |s| - i
  {
    if i < |s| && s[i] <= ' ' then TrimStart(s, i + 1) else i
  }

  /** The end index moved back from len past characters up to U+0020, but not below st. */
  function TrimEnd(s: string, st: nat, len: nat): (e: nat)
    requires st <= len <= |s|
    ensures st <= e <= len
    decreases len
  {
    if st < len && s[len - 1] <= ' ' then TrimEnd(s, st, len - 1) else len
  }

  lemma LowerIdempotent(s: string)
    ensures Lower(Lower(s)) == Lower(s)
  {
  }

  lemma UpperIdempotent(s: string)
    ensures Upper(Upper(s)) == Upper(s)
  {
  }

  /** Trimming leading blanks off a string whose ends are not blank leaves that string. */
  lemma TrimBlanksBefore(blanks: string, word: string)
    requires forall i :: 0 <= i < |blanks| ==> blanks[i] <= ' '
    requires |word| > 0 && word[0] > ' ' && word[|word| - 1] > ' '
    ensures Trim(blanks + word) == word
  {
    var s := blanks + word;
    TrimStartBlanks(s, 0, |blanks|);
    assert s[|s| - 1] == word[|word| - 1];
    assert s[|blanks|..|s|] == word;
  }

  lemma {:induction false} TrimStartBlanks(s: string, i: nat, n: nat)
    requires i <= n < |s|
    requires forall j :: i <= j < n ==> s[j] <= ' '
    requires s[n] > ' '
    ensures TrimStart(s, i) == n
    decreases n - i
  {
    if i < n {
      TrimStartBlanks(s, i + 1, n);
    }
  }
}
