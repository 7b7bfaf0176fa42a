/**
 * Case-insensitive ordinal string comparison (String.Equals with
 * StringComparison.OrdinalIgnoreCase), restricted to ASCII letters:
 * 'a'..'z' fold onto 'A'..'Z', every other character compares as is.
 */
module Ordinal {

  /** Folds one character to upper case if it is an ASCII lower-case letter. */
  function FoldCase(c: char): char
  {
    if 'a' <= c <= 'z' then (c as int - 32) as char else c
  }

  /** The string with every character folded. */
  function FoldAll(s: string): (r: string)
    ensures |r| == |s|
    ensures forall i :: 0 <= i < |s| ==> r[i] == FoldCase(s[i])
  {
    if s == [] then [] else [FoldCase(s[0])] + FoldAll(s[1..])
  }

  /** Char-by-char comparison of two strings of the same length, ignoring ASCII case. */
  predicate EqualsIgnoreCase(a: string, b: string)
    ensures EqualsIgnoreCase(a, b) ==> |a| == |b|
    ensures a == b ==> EqualsIgnoreCase(a, b)
  {
    |a| == |b| && (a == [] || (FoldCase(a[0]) == FoldCase(b[0]) && EqualsIgnoreCase(a[1..], b[1..])))
  }

  /** The char-wise fold agrees with comparing the two folded strings. */
  lemma {:induction false} EqualsIgnoreCaseIffFoldedEqual(a: string, b: string)
    ensures EqualsIgnoreCase(a, b) <==> FoldAll(a) == FoldAll(b)
  {
    if a != [] && b != [] {
      EqualsIgnoreCaseIffFoldedEqual(a[1..], b[1..]);
      if FoldAll(a) == FoldAll(b) {
        assert FoldAll(a)[1..] == FoldAll(a[1..]);
        assert FoldAll(b)[1..] == FoldAll(b[1..]);
      }
    } else if FoldAll(a) == FoldAll(b) {
      assert |a| == |b|;
    }
  }

  /** Ignoring case is an equivalence relation, and exact equality implies it. */
  lemma EqualsIgnoreCaseIsEquivalence(a: string, b: string, c: string)
    ensures EqualsIgnoreCase(a, a)
    ensures EqualsIgnoreCase(a, b) ==> EqualsIgnoreCase(b, a)
    ensures EqualsIgnoreCase(a, b) && EqualsIgnoreCase(b, c) ==> EqualsIgnoreCase(a, c)
  {
    EqualsIgnoreCaseIffFoldedEqual(a, a);
    EqualsIgnoreCaseIffFoldedEqual(a, b);
    EqualsIgnoreCaseIffFoldedEqual(b, a);
    EqualsIgnoreCaseIffFoldedEqual(b, c);
    EqualsIgnoreCaseIffFoldedEqual(a, c);
  }

  /** Two characters fold together exactly when they are equal or the same ASCII letter in the other case. */
  lemma FoldCaseMatchesLetterPairs(c: char, d: char)
    ensures FoldCase(c) == FoldCase(d) <==>
      c == d
      || ('a' <= c <= 'z' && d as int == c as int - 32)
      || ('a' <= d <= 'z' && c as int == d as int - 32)
  {
  }

  /** A mixed-case identity matches its lower-case spelling. */
  lemma MixedCaseExample()
    ensures EqualsIgnoreCase("Ping", "pING")
  {
  }
}
