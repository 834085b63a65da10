/**
 Small facts about maps, sets and sequences that several modules share.
 */
module Collections {

  /** What an index that maps keys to sets lists under `k`. */
  function SetAt<K, V>(m: map<K, set<V>>, k: K): set<V> {
    if k in m then m[k] else {}
  }

  lemma {:induction false} SubsetSize<T>(a: set<T>, b: set<T>)
    requires a <= b
    ensures |a| <= |b|
  {
    if a != {} {
      var x :| x in a;
      SubsetSize(a - {x}, b - {x});
    }
  }

  function Map<T, U>(s: seq<T>, f: T -> U): (r: seq<U>)
    ensures |r| == |s| && forall i :: 0 <= i < |s| ==> r[i] == f(s[i])
  {
    seq(|s|, i requires 0 <= i < |s| => f(s[i]))
  }

  /** The elements that satisfy `p`, in order. */
  function Where<T>(s: seq<T>, p: T -> bool): seq<T> {
    if s == [] then []
    else
      var front := Where(s[..|s| - 1], p);
      if p(s[|s| - 1]) then front + [s[|s| - 1]] else front
  }

  lemma WhereAppend<T>(s: seq<T>, x: T, p: T -> bool)
    ensures Where(s + [x], p) == if p(x) then Where(s, p) + [x] else Where(s, p)
  {
    assert (s + [x])[..|s|] == s;
  }

  lemma WherePrefix<T>(s: seq<T>, i: nat, p: T -> bool)
    requires i < |s|
    ensures Where(s[..i + 1], p) == if p(s[i]) then Where(s[..i], p) + [s[i]] else Where(s[..i], p)
  {
    WhereAppend(s[..i], s[i], p);
    assert s[..i + 1] == s[..i] + [s[i]];
  }

  lemma {:induction false} WhereHead<T>(x: T, s: seq<T>, p: T -> bool)
    ensures Where([x] + s, p) == (if p(x) then [x] else []) + Where(s, p)
  {
    if s == [] {
      assert [x] + s == [] + [x];
      WhereAppend([], x, p);
    } else {
      var n := |s| - 1;
      WhereHead(x, s[..n], p);
      WhereAppend([x] + s[..n], s[n], p);
      assert [x] + s == [x] + s[..n] + [s[n]];
    }
  }

  lemma {:induction false} WhereWithin<T>(s: seq<T>, p: T -> bool)
    ensures forall x :: x in Where(s, p) ==> x in s && p(x)
  {
    if s != [] { WhereWithin(s[..|s| - 1], p); }
  }
}
