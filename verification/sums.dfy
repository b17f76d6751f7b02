/** Running totals over the schedules the calculators emit. */
module Sums {

  /** The sum of f over the elements of s, in order. */
  function SumOf<T>(s: seq<T>, f: T -> real): real
  {
    if s == [] then 0.0 else f(s[0]) + SumOf(s[1..], f)
  }

  /** Totals split at any point of the sequence; this is what lets a loop
      add one element at the end of its running total. */
  lemma {:induction false} SumOfAppend<T>(s: seq<T>, t: seq<T>, f: T -> real)
    ensures SumOf(s + t, f) == SumOf(s, f) + SumOf(t, f)
  {
    if s != [] {
      assert (s + t)[1..] == s[1..] + t;
      SumOfAppend(s[1..], t, f);
    } else {
      assert s + t == t;
    }
  }

  lemma SumOfSingle<T>(x: T, f: T -> real)
    ensures SumOf([x], f) == f(x)
  {
    assert [x][1..] == [];
  }
}
