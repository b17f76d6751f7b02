/** The character filter of parseFormattedNumber: every character other
    than a digit, '.' or '-' is removed, and the rest keep their order. */
module NumberFilter {
  /** The characters the filter keeps. */
  predicate IsNumericChar(c: char)
  {
    ('0' <= c <= '9') || c == '.' || c == '-'
  }

  /** The filtered text: the numeric characters of s, in order. */
  function KeepNumericChars(s: string): (r: string)
    ensures forall k :: 0 <= k < |r| ==> IsNumericChar(r[k])
    ensures |r| <= |s|
  {
    if s == [] then []
    else if IsNumericChar(s[0]) then [s[0]] + KeepNumericChars(s[1..])
    else KeepNumericChars(s[1..])
  }

  /** Filtering a concatenation filters each part: nothing moves across the
      boundary, so the kept characters stay in their original order. */
  lemma {:induction false} KeepNumericCharsAppend(s: string, t: string)
    ensures KeepNumericChars(s + t) == KeepNumericChars(s) + KeepNumericChars(t)
  {
    if s == [] {
      assert s + t == t;
    } else {
      assert (s + t)[0] == s[0];
      assert (s + t)[1..] == s[1..] + t;
      KeepNumericCharsAppend(s[1..], t);
    }
  }

  /** The filter leaves a text unchanged exactly when every character of it
      is numeric. */
  lemma {:induction false} KeepNumericCharsIdentity(s: string)
    ensures KeepNumericChars(s) == s <==> forall k :: 0 <= k < |s| ==> IsNumericChar(s[k])
  {
    if s != [] {
      KeepNumericCharsIdentity(s[1..]);
      if !IsNumericChar(s[0]) {
        assert |KeepNumericChars(s)| < |s|;
      } else if KeepNumericChars(s) == s {
        assert KeepNumericChars(s[1..]) == s[1..];
        forall k | 0 <= k < |s|
          ensures IsNumericChar(s[k])
        {
          if k > 0 {
            assert s[k] == s[1..][k - 1];
          }
        }
      } else {
        assert KeepNumericChars(s[1..]) != s[1..];
        var k :| 0 <= k < |s[1..]| && !IsNumericChar(s[1..][k]);
        assert !IsNumericChar(s[k + 1]);
      }
    }
  }

  /** Filtering twice is filtering once. */
  lemma KeepNumericCharsIdempotent(s: string)
    ensures KeepNumericChars(KeepNumericChars(s)) == KeepNumericChars(s)
  {
    KeepNumericCharsIdentity(KeepNumericChars(s));
  }

  /** Every numeric character occurs in the result as often as in the input,
      and no other character occurs in it at all. */
  lemma {:induction false} KeepNumericCharsCounts(s: string, c: char)
    ensures multiset(KeepNumericChars(s))[c] == if IsNumericChar(c) then multiset(s)[c] else 0
  {
    if s != [] {
      KeepNumericCharsCounts(s[1..], c);
      assert s == [s[0]] + s[1..];
      assert multiset(s) == multiset([s[0]]) + multiset(s[1..]);
    }
  }
}
