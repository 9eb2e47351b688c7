/**
 * Topic names are compared after `str.lower()`. This model folds the ASCII
 * letters A-Z to a-z and leaves every other character as it is.
 */
module CaseFold {

  /** One character of `str.lower()`: only capitals change, each into its small letter. */
  function LowerChar(c: char): (r: char)
    ensures !('A' <= r <= 'Z')
    ensures r != c <==> 'A' <= c <= 'Z'
    ensures r != c ==> 'a' <= r <= 'z' && r as int - c as int == 'a' as int - 'A' as int
  {
    if 'A' <= c <= 'Z' then (c as int + 32) as char else c
  }

  /** `s.lower()`, character by character. */
  function Lower(s: string): (r: string)
    ensures |r| == |s|
    ensures forall i :: 0 <= i < |s| ==> r[i] == LowerChar(s[i])
  {
    if s == [] then [] else [LowerChar(s[0])] + Lower(s[1..])
  }

  /** The test the scheduler uses to find a topic: `a.lower() == b.lower()`. */
  predicate SameName(a: string, b: string) {
    Lower(a) == Lower(b)
  }

  /** Folding twice is folding once. */
  lemma LowerIdempotent(s: string)
    ensures Lower(Lower(s)) == Lower(s)
  {
    var once := Lower(s);
    var twice := Lower(once);
    forall i | 0 <= i < |s| ensures twice[i] == once[i] {
    }
  }

  /** A name clashes with its own lower-cased form (and so with any spelling that folds to it). */
  lemma FoldedNameClashes(s: string)
    ensures SameName(Lower(s), s)
  {
    LowerIdempotent(s);
  }
}
