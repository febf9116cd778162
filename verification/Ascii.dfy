/** ASCII text and its bytes. */
module Ascii {
  import opened Sequences

  predicate IsAscii(s: string) {
    forall i :: 0 <= i < |s| ==> s[i] as int < 128
  }

  predicate NulFree(s: string) {
    forall i :: 0 <= i < |s| ==> s[i] as int != 0
  }

  /** The bytes of ASCII text. */
  function AsciiBytes(s: string): (bs: Bytes)
    requires IsAscii(s)
    ensures |bs| == |s|
  {
    seq(|s|, i requires 0 <= i < |s| => s[i] as int)
  }

  function LowerChar(c: char): (l: char)
    ensures c as int != 0 ==> l as int != 0
    ensures c as int < 128 ==> l as int < 128
  {
    if 'A' <= c <= 'Z' then (c as int + 32) as char else c
  }

  function Lower(s: string): (l: string)
    ensures |l| == |s|
    ensures forall i :: 0 <= i < |s| ==> l[i] == LowerChar(s[i])
  {
    seq(|s|, i requires 0 <= i < |s| => LowerChar(s[i]))
  }

  predicate IsLower(s: string) {
    forall i :: 0 <= i < |s| ==> !('A' <= s[i] <= 'Z')
  }

  lemma LowerOfLower(s: string)
    ensures IsLower(Lower(s))
    ensures IsLower(s) ==> Lower(s) == s
  {
    assert IsLower(s) ==> forall i :: 0 <= i < |s| ==> Lower(s)[i] == s[i];
  }

  const UPPER_CASE := "ABCDEFGHIJKLMNOPQRSTUVWXYZ"
  const LOWER_CASE := "abcdefghijklmnopqrstuvwxyz"

  lemma UpperAre(c: char)
    ensures 'A' <= c <= 'Z' <==> c in UPPER_CASE
  {
    if 'A' <= c <= 'Z' {
      assert UPPER_CASE[c as int - 65] == c;
    }
  }

  lemma LowerAre(c: char)
    ensures 'a' <= c <= 'z' <==> c in LOWER_CASE
  {
    if 'a' <= c <= 'z' {
      assert LOWER_CASE[c as int - 97] == c;
    }
  }

  /** Lower-casing turns each capital into its small letter. */
  lemma LowerLetters(k: nat)
    requires k < 26
    ensures LowerChar(UPPER_CASE[k]) == LOWER_CASE[k]
  {
  }

  /** Lower-casing changes nothing but capitals. */
  lemma OthersKept(c: char)
    ensures LowerChar(c) != c ==> c in UPPER_CASE
  {
    UpperAre(c);
  }
}
