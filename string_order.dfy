/**
 * Go's `<` on strings: byte-wise lexicographic order of the UTF-8 encodings.
 * Dafny's strings are sequences of Unicode scalar values, and UTF-8 preserves
 * the order of code points, so comparing characters one by one gives the same
 * order. (Dafny's own `<` on sequences means "proper prefix" and is not used.)
 */
module StringOrder {

  /** `a < b` in Go: a strict order, so no string is below itself. */
  function Less(a: string, b: string): (r: bool)
    ensures r ==> a != b
    decreases |a|
  {
    if a == [] then b != []
    else if b == [] then false
    else if a[0] != b[0] then a[0] < b[0]
    else Less(a[1..], b[1..])
  }

  lemma {:induction false} Irreflexive(a: string)
    ensures !Less(a, a)
    decreases |a|
  {
    if a != [] {
      Irreflexive(a[1..]);
    }
  }

  lemma {:induction false} Asymmetric(a: string, b: string)
    requires Less(a, b)
    ensures !Less(b, a)
    decreases |a|
  {
    if a != [] && b != [] && a[0] == b[0] {
      Asymmetric(a[1..], b[1..]);
    }
  }

  lemma {:induction false} Transitive(a: string, b: string, c: string)
    requires Less(a, b) && Less(b, c)
    ensures Less(a, c)
    decreases |a|
  {
    if a != [] && a[0] == b[0] && b[0] == c[0] {
      Transitive(a[1..], b[1..], c[1..]);
    }
  }

  /** Any two strings compare equal, less or greater: the three-way tests of the tree walks are exhaustive. */
  lemma {:induction false} Total(a: string, b: string)
    ensures a == b || Less(a, b) || Less(b, a)
    decreases |a|
  {
    if a != [] && b != [] && a[0] == b[0] {
      Total(a[1..], b[1..]);
      if a[1..] == b[1..] {
        assert a == [a[0]] + a[1..] && b == [b[0]] + b[1..];
      }
    }
  }

  /** The empty topic is below every other topic. */
  lemma EmptyIsLeast(a: string)
    ensures a != "" ==> Less("", a)
  {
  }
}
