/** String helpers shared by the server-side filename rules: ASCII lower-casing
    and the `rfind` search used by Python's `str.rsplit` and `os.path.splitext`. */
module Text {

  /** Lower-cases one ASCII letter; every other character is left alone. */
  function LowerChar(c: char): char
  {
    if 'A' <= c <= 'Z' then (c as int + 32) as char else c
  }

  /** `str.lower()` restricted to ASCII letters. */
  function Lower(s: string): (r: string)
    ensures |r| == |s|
    ensures forall i :: 0 <= i < |s| ==> r[i] == LowerChar(s[i])
    ensures forall i :: 0 <= i < |r| ==> !('A' <= r[i] <= 'Z')
  {
    seq(|s|, i requires 0 <= i < |s| => LowerChar(s[i]))
  }

  /** Lower-casing twice is lower-casing once. */
  lemma LowerIdempotent(s: string)
    ensures Lower(Lower(s)) == Lower(s)
  {
  }

  /** `s.rfind(c)`: the index of the last occurrence of `c`, or -1 when `c`
      does not occur. */
  function RFind(s: string, c: char): (r: int)
    ensures -1 <= r < |s|
    ensures r >= 0 ==> s[r] == c
    ensures forall j :: r < j < |s| ==> s[j] != c
  {
    LastBefore(s, c, |s|)
  }

  /** The last index below `n` holding `c`, or -1. */
  function LastBefore(s: string, c: char, n: nat): (r: int)
    requires n <= |s|
    ensures -1 <= r < n
    ensures r >= 0 ==> s[r] == c
    ensures forall j :: r < j < n ==> s[j] != c
  {
    if n == 0 then -1
    else if s[n - 1] == c then n - 1
    else LastBefore(s, c, n - 1)
  }

  /** Searching a concatenation: the last `c` is in the right part when the
      right part has one, and otherwise wherever it is in the left part. */
  lemma RFindConcat(a: string, b: string, c: char)
    ensures RFind(a + b, c) == if c in b then |a| + RFind(b, c) else RFind(a, c)
  {
    var r := RFind(a + b, c);
    if c in b {
      var k := RFind(b, c);
      assert (a + b)[|a| + k] == c;
      forall j | |a| + k < j < |a + b|
        ensures (a + b)[j] != c
      {
        assert (a + b)[j] == b[j - |a|];
      }
      RFindUnique(a + b, c, |a| + k);
    } else {
      var k := RFind(a, c);
      forall j | k < j < |a + b|
        ensures (a + b)[j] != c
      {
        if j >= |a| {
          assert (a + b)[j] == b[j - |a|];
        }
      }
      if k >= 0 {
        assert (a + b)[k] == c;
        RFindUnique(a + b, c, k);
      } else {
        RFindAbsent(a + b, c);
      }
    }
  }

  /** An index holding `c` with no `c` after it is exactly what `RFind` returns. */
  lemma RFindUnique(s: string, c: char, k: int)
    requires 0 <= k < |s| && s[k] == c
    requires forall j :: k < j < |s| ==> s[j] != c
    ensures RFind(s, c) == k
  {
  }

  /** `RFind` answers -1 exactly when the character does not occur. */
  lemma RFindAbsent(s: string, c: char)
    ensures RFind(s, c) == -1 <==> c !in s
  {
  }

  /** True when every character of `s` is a dot (vacuously for ""). */
  predicate AllDots(s: string)
  {
    forall i :: 0 <= i < |s| ==> s[i] == '.'
  }
}
