/** Small text functions shared by the components; letters and digits are ASCII. */
module Texts {

  function LowerChar(c: char): char {
    if 'A' <= c <= 'Z' then c + 32 as char else c
  }

  function Lower(s: string): (r: string)
    ensures |r| == |s| && forall i :: 0 <= i < |s| ==> r[i] == LowerChar(s[i])
  {
    seq(|s|, i requires 0 <= i < |s| => LowerChar(s[i]))
  }

  /** The capital letters change, from A to Z, each to the letter at its place between a and z, and no other character does. */
  lemma CapitalsLowered(c: char)
    ensures LowerChar(c) != c <==> 'A' <= c <= 'Z'
    ensures LowerChar(c) != c ==> LowerChar(c) as int - 'a' as int == c as int - 'A' as int && 'a' <= LowerChar(c) <= 'z'
  {
  }
}
