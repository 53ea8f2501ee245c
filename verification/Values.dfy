/** Small values shared by the supervising state machines. */
module Values {
  function MinReal(a: real, b: real): (r: real)
    ensures r <= a && r <= b && (r == a || r == b)
  {
    if b < a then b else a
  }

  function MaxReal(a: real, b: real): (r: real)
    ensures r >= a && r >= b && (r == a || r == b)
  {
    if b > a then b else a
  }

  /** `first`, then its opposite, then `first` again, and so on. */
  predicate Alternates(s: seq<bool>, first: bool) {
    forall i :: 0 <= i < |s| ==> s[i] == (first == (i % 2 == 0))
  }
}
