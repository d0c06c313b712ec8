/** The case-insensitive string order that plugin discovery sorts by
    (Java's `String.CASE_INSENSITIVE_ORDER`): strings are compared character by
    character after folding case, and a proper prefix comes first. */
module CaseInsensitive {

  /** Case folding of one character, `toLowerCase(toUpperCase(c))`, for ASCII letters. */
  function FoldChar(c: char): char {
    if 'A' <= c <= 'Z' then (c as int + 32) as char else c
  }

  /** The string with every character folded. */
  function Fold(s: string): (r: string)
    ensures |r| == |s|
    ensures forall i :: 0 <= i < |s| ==> r[i] == FoldChar(s[i])
  {
    if s == [] then [] else [FoldChar(s[0])] + Fold(s[1..])
  }

  /** `a.compareTo(b) <= 0`: the first differing character decides, otherwise the shorter string is smaller. */
  predicate LexLessEq(a: string, b: string)
    decreases |a|
  {
    if a == [] then true
    else if b == [] then false
    else if a[0] != b[0] then a[0] < b[0]
    else LexLessEq(a[1..], b[1..])
  }

  /** `CASE_INSENSITIVE_ORDER.compare(x, y) <= 0`. */
  predicate NameLessEq(x: string, y: string) {
    LexLessEq(Fold(x), Fold(y))
  }

  lemma {:induction false} LexReflexive(a: string)
    ensures LexLessEq(a, a)
  {
    if a != [] {
      LexReflexive(a[1..]);
    }
  }

  lemma {:induction false} LexTotal(a: string, b: string)
    ensures LexLessEq(a, b) || LexLessEq(b, a)
  {
    if a != [] && b != [] && a[0] == b[0] {
      LexTotal(a[1..], b[1..]);
    }
  }

  lemma {:induction false} LexTransitive(a: string, b: string, c: string)
    requires LexLessEq(a, b) && LexLessEq(b, c)
    ensures LexLessEq(a, c)
  {
    if a != [] && b != [] && c != [] && a[0] == b[0] && b[0] == c[0] {
      LexTransitive(a[1..], b[1..], c[1..]);
    }
  }

  lemma {:induction false} LexAntisymmetric(a: string, b: string)
    requires LexLessEq(a, b) && LexLessEq(b, a)
    ensures a == b
  {
    if a != [] && b != [] {
      LexAntisymmetric(a[1..], b[1..]);
      assert a == [a[0]] + a[1..] && b == [b[0]] + b[1..];
    }
  }

  /** The case-insensitive order is total: any two names are comparable. */
  lemma NameTotal(x: string, y: string)
    ensures NameLessEq(x, y) || NameLessEq(y, x)
  {
    LexTotal(Fold(x), Fold(y));
  }

  /** The case-insensitive order is transitive. */
  lemma NameTransitive(x: string, y: string, z: string)
    requires NameLessEq(x, y) && NameLessEq(y, z)
    ensures NameLessEq(x, z)
  {
    LexTransitive(Fold(x), Fold(y), Fold(z));
  }

  /** Two names are equivalent under the order exactly when they fold to the same string. */
  lemma NameEquivalent(x: string, y: string)
    ensures (NameLessEq(x, y) && NameLessEq(y, x)) <==> Fold(x) == Fold(y)
  {
    if NameLessEq(x, y) && NameLessEq(y, x) {
      LexAntisymmetric(Fold(x), Fold(y));
    }
    if Fold(x) == Fold(y) {
      LexReflexive(Fold(x));
    }
  }
}
