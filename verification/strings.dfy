/** The order of strings by their characters. */
module Strings {

  /** Compares byte strings: negative, zero or positive. */
  function Compare(a: string, b: string): int {
    if a == "" || b == "" then |a| - |b|
    else if a[0] != b[0] then a[0] as int - b[0] as int
    else Compare(a[1..], b[1..])
  }

  lemma {:induction false} CompareIsEqual(a: string, b: string)
    ensures Compare(a, b) == 0 <==> a == b
  {
    if a != "" && b != "" && a[0] == b[0] {
      CompareIsEqual(a[1..], b[1..]);
      assert a == [a[0]] + a[1..] && b == [b[0]] + b[1..];
    }
  }

  lemma {:induction false} CompareIsAntisymmetric(a: string, b: string)
    ensures Compare(a, b) == -Compare(b, a)
  {
    if a != "" && b != "" && a[0] == b[0] { CompareIsAntisymmetric(a[1..], b[1..]); }
  }

  lemma {:induction false} CompareIsTransitive(a: string, b: string, c: string)
    requires Compare(a, b) <= 0 && Compare(b, c) <= 0
    ensures Compare(a, c) <= 0 && (Compare(a, b) < 0 || Compare(b, c) < 0 ==> Compare(a, c) < 0)
  {
    if a != "" && b != "" && c != "" && a[0] == b[0] && b[0] == c[0] {
      CompareIsTransitive(a[1..], b[1..], c[1..]);
    }
  }

  method CompareStringViews(a: string, b: string) returns (r: int)
    ensures r == Compare(a, b)
  {
    var size := if |a| < |b| then |a| else |b|;
    var i := 0;
    while i < size
      invariant i <= size && Compare(a, b) == Compare(a[i..], b[i..])
    {
      var c := a[i] as int - b[i] as int;
      if c != 0 { return c; }
      assert a[i..][1..] == a[i + 1..] && b[i..][1..] == b[i + 1..];
      i := i + 1;
    }
    return |a| - |b|;
  }

  lemma {:induction false} Above(s: string, name: string, lower: string)
    requires Compare(s, name) > 0 && Compare(lower, name) <= 0
    ensures Compare(s, lower) > 0
  {
    CompareIsAntisymmetric(s, name);
    CompareIsAntisymmetric(s, lower);
    CompareIsTransitive(lower, name, s);
  }
}
