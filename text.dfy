/** The JavaScript string operations the pages apply to identifiers and search text. */
module Text {
  /** `s.startsWith(prefix)`. */
  predicate StartsWith(s: string, prefix: string) {
    |prefix| <= |s| && s[..|prefix|] == prefix
  }

  /** `s.includes(sub)`: `sub` occurs in `s` at some position. */
  predicate Includes(s: string, sub: string)
    decreases |s|
  {
    StartsWith(s, sub) || (|s| > 0 && Includes(s[1..], sub))
  }

  /** An occurrence found by `includes` splits the text around it: `a` before it, `b` after it. */
  lemma {:induction false} IncludesGivesSplit(s: string, sub: string) returns (a: string, b: string)
    requires Includes(s, sub)
    ensures s == a + sub + b
    decreases |s|
  {
    if StartsWith(s, sub) {
      a, b := [], s[|sub|..];
      assert s == s[..|sub|] + s[|sub|..];
    } else {
      var a', b' := IncludesGivesSplit(s[1..], sub);
      a, b := [s[0]] + a', b';
      calc {
        s;
        [s[0]] + s[1..];
        [s[0]] + (a' + sub + b');
        a + sub + b;
      }
    }
  }

  /** A text that splits around `sub` includes it. */
  lemma {:induction false} SplitGivesIncludes(s: string, sub: string, a: string, b: string)
    requires s == a + sub + b
    ensures Includes(s, sub)
    decreases |a|
  {
    if a == [] {
      assert s[..|sub|] == sub;
    } else {
      assert s[1..] == a[1..] + sub + b;
      SplitGivesIncludes(s[1..], sub, a[1..], b);
    }
  }

  /** `includes` agrees with the textbook definition: `s` splits around an occurrence of `sub`. */
  lemma IncludesSplits(s: string, sub: string)
    ensures Includes(s, sub) <==> exists a, b :: s == a + sub + b
  {
    if Includes(s, sub) {
      var a, b := IncludesGivesSplit(s, sub);
    }
    if exists a, b :: s == a + sub + b {
      var a, b :| s == a + sub + b;
      SplitGivesIncludes(s, sub, a, b);
    }
  }

  /** The textbook definition of a substring: `s` splits around an occurrence of `sub`. */
  ghost predicate Occurs(s: string, sub: string) {
    exists a, b :: s == a + sub + b
  }

  /** `includes` is the textbook substring relation on every pair of texts. */
  lemma IncludesIsOccurs()
    ensures forall s, sub {:trigger Includes(s, sub)} :: Includes(s, sub) <==> Occurs(s, sub)
  {
    forall s, sub
      ensures Includes(s, sub) <==> Occurs(s, sub)
    {
      IncludesSplits(s, sub);
    }
  }

  lemma IncludesEmpty(s: string)
    ensures Includes(s, "")
  {
  }

  /** `toLowerCase` on one character; only the ASCII letters are folded in this model. */
  function LowerChar(c: char): char {
    if 'A' <= c <= 'Z' then (c as int + 32) as char else c
  }

  /** `toUpperCase` on one character; only the ASCII letters are folded in this model. */
  function UpperChar(c: char): char {
    if 'a' <= c <= 'z' then (c as int - 32) as char else c
  }

  /** `s.toLowerCase()`. */
  function ToLower(s: string): (r: string)
    ensures |r| == |s|
  {
    seq(|s|, i requires 0 <= i < |s| => LowerChar(s[i]))
  }

  /** `s.toUpperCase()`. */
  function ToUpper(s: string): (r: string)
    ensures |r| == |s|
  {
    seq(|s|, i requires 0 <= i < |s| => UpperChar(s[i]))
  }

  /** Lower-casing forgets whether the text was upper-cased first: case-insensitive matching. */
  lemma LowerForgetsUpper(s: string)
    ensures ToLower(ToUpper(s)) == ToLower(s)
  {
    forall i | 0 <= i < |s|
      ensures ToLower(ToUpper(s))[i] == ToLower(s)[i]
    {
      var c := s[i];
      assert ToUpper(s)[i] == UpperChar(c);
    }
  }

  /** Upper-cased text contains no lower-case ASCII letter. */
  lemma UpperHasNoLowerLetters(s: string)
    ensures forall i :: 0 <= i < |ToUpper(s)| ==> !('a' <= ToUpper(s)[i] <= 'z')
  {
  }
}
