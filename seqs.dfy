/** Order-preserving filtering and prefixes of sequences: the `filter` and
    `slice` the pages apply to fetched rows. */
module Seqs {

  /** `s.filter(f)`, defined from the left as the source's loops append. */
  function Filter<T>(s: seq<T>, f: T -> bool): (r: seq<T>)
    ensures |r| <= |s|
    ensures forall i :: 0 <= i < |r| ==> f(r[i]) && r[i] in s
  {
    if s == [] then []
    else Filter(s[..|s| - 1], f) + (if f(s[|s| - 1]) then [s[|s| - 1]] else [])
  }

  /** Filtering distributes over concatenation, so rows keep their relative
      order. */
  lemma {:induction false} FilterAppend<T>(a: seq<T>, b: seq<T>, f: T -> bool)
    ensures Filter(a + b, f) == Filter(a, f) + Filter(b, f)
    decreases |b|
  {
    if b == [] {
      assert a + b == a;
    } else {
      var last := b[|b| - 1];
      assert (a + b)[..|a + b| - 1] == a + b[..|b| - 1];
      FilterAppend(a, b[..|b| - 1], f);
    }
  }

  /** An element is kept exactly when it satisfies the test. */
  lemma {:induction false} FilterMember<T>(s: seq<T>, f: T -> bool, x: T)
    ensures x in Filter(s, f) <==> x in s && f(x)
  {
    if s != [] {
      FilterMember(s[..|s| - 1], f, x);
      assert s == s[..|s| - 1] + [s[|s| - 1]];
    }
  }

  /** Filtering keeps the multiplicity of every element that passes. */
  lemma {:induction false} FilterMultiset<T>(s: seq<T>, f: T -> bool, x: T)
    ensures multiset(Filter(s, f))[x] == if f(x) then multiset(s)[x] else 0
  {
    if s != [] {
      FilterMultiset(s[..|s| - 1], f, x);
      assert s == s[..|s| - 1] + [s[|s| - 1]];
    }
  }

  /** `s.slice(0, n)`. */
  function Take<T>(s: seq<T>, n: nat): (r: seq<T>)
    ensures |r| == if |s| < n then |s| else n
    ensures r == s[..|r|]
  {
    if |s| <= n then s else s[..n]
  }

  /** The first `n` elements passing `f`, walking `s` front to back: each
      passing element is kept, in its place, until `n` are kept. */
  function FirstMatching<T>(s: seq<T>, f: T -> bool, n: nat): seq<T> {
    if s == [] || n == 0 then []
    else if f(s[0]) then [s[0]] + FirstMatching(s[1..], f, n - 1)
    else FirstMatching(s[1..], f, n)
  }

  /** `s.filter(f).slice(0, n)` keeps exactly the first `n` passing
      elements, in order. */
  lemma {:induction false} FirstMatchingIsFilterSlice<T>(s: seq<T>, f: T -> bool, n: nat)
    ensures FirstMatching(s, f, n) == Take(Filter(s, f), n)
  {
    if s != [] {
      var m := if n > 0 && f(s[0]) then n - 1 else n;
      FirstMatchingIsFilterSlice(s[1..], f, m);
      var head := Filter([s[0]], f);
      var rest := Filter(s[1..], f);
      assert s == [s[0]] + s[1..];
      FilterAppend([s[0]], s[1..], f);
      assert [s[0]][..0] == [];
      assert head == (if f(s[0]) then [s[0]] else []);
      assert Filter(s, f) == head + rest;
      if n > 0 && f(s[0]) {
        assert Take([s[0]] + rest, n) == [s[0]] + Take(rest, n - 1);
      } else if n > 0 {
        assert Filter(s, f) == rest;
      }
    }
  }
}
