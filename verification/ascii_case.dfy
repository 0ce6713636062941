/**
  Key normalisation: the lower-casing the factory applies to a requested
  identifier before looking it up. Only the ASCII letters are case-mapped
  ('A'..'Z' to 'a'..'z'); every other character is left as it is.
 */
module AsciiCase {

  predicate IsUpperChar(c: char) {
    'A' <= c <= 'Z'
  }

  /** One character lowered: upper-case ASCII letters move down by 32, all else is kept. */
  function LowerChar(c: char): (r: char)
    ensures !IsUpperChar(r)
    ensures !IsUpperChar(c) ==> r == c
  {
    if IsUpperChar(c) then (c as int + 32) as char else c
  }

  /** One character raised: the inverse direction, used to state case-insensitivity. */
  function UpperChar(c: char): (r: char)
    ensures !('a' <= r <= 'z')
    ensures LowerChar(r) == LowerChar(c)
  {
    if 'a' <= c <= 'z' then (c as int - 32) as char else c
  }

  /** A string already in canonical (lower-case) form. */
  predicate IsLower(s: string) {
    forall i :: 0 <= i < |s| ==> !IsUpperChar(s[i])
  }

  /** Two strings that differ at most in the case of their letters. */
  predicate EqualIgnoringCase(s: string, t: string) {
    |s| == |t| && forall i :: 0 <= i < |s| ==> LowerChar(s[i]) == LowerChar(t[i])
  }

  /** The lower-cased string: same length, and in canonical form. */
  function Lower(s: string): (r: string)
    ensures |r| == |s|
    ensures IsLower(r)
  {
    if |s| == 0 then [] else [LowerChar(s[0])] + Lower(s[1..])
  }

  /** The upper-cased string, every letter raised. */
  function Upper(s: string): (r: string)
    ensures forall i :: 0 <= i < |r| ==> !('a' <= r[i] <= 'z')
    ensures EqualIgnoringCase(r, s)
  {
    if |s| == 0 then [] else [UpperChar(s[0])] + Upper(s[1..])
  }

  /** Lowering works character by character. */
  lemma {:induction false} LowerAt(s: string, i: int)
    requires 0 <= i < |s|
    ensures Lower(s)[i] == LowerChar(s[i])
  {
    if i > 0 {
      LowerAt(s[1..], i - 1);
    }
  }

  /** A string already in canonical form is its own lower-cased form. */
  lemma {:induction false} LowerFixesLowercase(s: string)
    requires IsLower(s)
    ensures Lower(s) == s
  {
    if |s| > 0 {
      assert IsLower(s[1..]) by {
        forall i | 0 <= i < |s[1..]|
          ensures !IsUpperChar(s[1..][i])
        {
          assert s[1..][i] == s[i + 1];
        }
      }
      LowerFixesLowercase(s[1..]);
    }
  }

  /** Lowering is idempotent. */
  lemma {:induction false} LowerIdempotent(s: string)
    ensures Lower(Lower(s)) == Lower(s)
  {
    LowerFixesLowercase(Lower(s));
  }

  /** Two strings have the same lower-cased form exactly when they are equal ignoring case. */
  lemma LowerEqualIff(s: string, t: string)
    ensures Lower(s) == Lower(t) <==> EqualIgnoringCase(s, t)
  {
    if Lower(s) == Lower(t) {
      forall i | 0 <= i < |s|
        ensures LowerChar(s[i]) == LowerChar(t[i])
      {
        LowerAt(s, i);
        LowerAt(t, i);
      }
    }
    if EqualIgnoringCase(s, t) {
      forall i | 0 <= i < |s|
        ensures Lower(s)[i] == Lower(t)[i]
      {
        LowerAt(s, i);
        LowerAt(t, i);
      }
    }
  }
}
