/** Facts about sequences of any kind. */
module Sequences {

  /** What is left of two permutations of each other without one common element. */
  lemma RemainderPermutes<T>(a: seq<T>, b: seq<T>, i: nat)
    requires a != [] && i < |b| && b[i] == a[0] && multiset(a) == multiset(b)
    ensures multiset(a[1..]) == multiset(b[..i] + b[i + 1..])
  {
    var x := a[0];
    var m, n := multiset(a[1..]), multiset(b[..i] + b[i + 1..]);
    assert a == [x] + a[1..];
    assert multiset(a) == m + multiset{x};
    assert b == b[..i] + [x] + b[i + 1..];
    assert multiset(b) == n + multiset{x};
    assert m == (m + multiset{x}) - multiset{x} == (n + multiset{x}) - multiset{x} == n;
  }

  //////////////////////////////////////////////////////////////////////////////
  // Splitting
  //////////////////////////////////////////////////////////////////////////////

  /** `str::split` on a character, and the same on bytes. */
  function Split<T(==)>(s: seq<T>, c: T): (parts: seq<seq<T>>)
    ensures parts != []
  {
    if s == [] then [[]]
    else
      var more := Split(s[1..], c);
      if s[0] == c then [[]] + more else [[s[0]] + more[0]] + more[1..]
  }

  lemma {:induction false} SplitPlain<T>(s: seq<T>, c: T, rest: seq<T>)
    requires c !in s
    ensures Split(s, c) == [s]
    ensures Split(s + [c] + rest, c) == [s] + Split(rest, c)
  {
    var t := s + [c] + rest;
    if s == [] {
      assert t == [c] + rest;
    } else {
      SplitPlain(s[1..], c, rest);
      assert t[1..] == s[1..] + [c] + rest;
      assert s == [s[0]] + s[1..];
    }
  }

  lemma {:induction false} PartsHaveNoSeparator<T>(s: seq<T>, c: T, i: nat)
    requires i < |Split(s, c)|
    ensures c !in Split(s, c)[i]
  {
    if s != [] {
      if s[0] == c {
        if i > 0 {
          PartsHaveNoSeparator(s[1..], c, i - 1);
        }
      } else {
        PartsHaveNoSeparator(s[1..], c, i);
      }
    }
  }
}
