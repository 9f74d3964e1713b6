/** `Array.prototype.filter` over a sequence, with the facts the models of its callers need. */
module JsArray {

  /** The elements of `s` that satisfy `p`, in their original order. */
  function Filter<T>(p: T -> bool, s: seq<T>): (r: seq<T>)
    ensures |r| <= |s|
    ensures forall x :: x in r ==> x in s && p(x)
  {
    if |s| == 0 then []
    else if p(s[0]) then [s[0]] + Filter(p, s[1..])
    else Filter(p, s[1..])
  }

  /** Filtering keeps every occurrence of a selected value and drops every other value. */
  lemma {:induction false} FilterMultiset<T>(p: T -> bool, s: seq<T>, x: T)
    ensures multiset(Filter(p, s))[x] == if p(x) then multiset(s)[x] else 0
  {
    if |s| > 0 {
      FilterMultiset(p, s[1..], x);
      assert s == [s[0]] + s[1..];
    }
  }

  /** Filtering a sequence extended at the front: the new element is kept exactly when it satisfies `p`. */
  lemma FilterCons<T>(p: T -> bool, x: T, s: seq<T>)
    ensures Filter(p, [x] + s) == (if p(x) then [x] else []) + Filter(p, s)
  {
    assert ([x] + s)[1..] == s;
  }

  /** Filtering a sequence extended at the end: the new element is kept exactly when it satisfies `p`. */
  lemma {:induction false} FilterSnoc<T>(p: T -> bool, s: seq<T>, x: T)
    ensures Filter(p, s + [x]) == Filter(p, s) + (if p(x) then [x] else [])
  {
    if |s| == 0 {
      assert s + [x] == [x];
      assert [x][1..] == [];
    } else {
      assert (s + [x])[1..] == s[1..] + [x];
      FilterSnoc(p, s[1..], x);
    }
  }

  /** Filtering keeps a sequence whose every element is selected. */
  lemma {:induction false} FilterAll<T>(p: T -> bool, s: seq<T>)
    requires forall x :: x in s ==> p(x)
    ensures Filter(p, s) == s
  {
    if |s| > 0 {
      FilterAll(p, s[1..]);
      assert s == [s[0]] + s[1..];
    }
  }

  /** Every element of `s` is related by `rel` to every later one. */
  ghost predicate Pairwise<T>(rel: (T, T) -> bool, s: seq<T>)
  {
    forall i, j :: 0 <= i < j < |s| ==> rel(s[i], s[j])
  }

  /** A filtered sequence keeps every pairwise relation its source had: it is a subsequence. */
  lemma {:induction false} FilterKeepsPairwise<T>(p: T -> bool, s: seq<T>, rel: (T, T) -> bool)
    requires Pairwise(rel, s)
    ensures Pairwise(rel, Filter(p, s))
  {
    if |s| > 0 {
      assert Pairwise(rel, s[1..]) by {
        forall i, j | 0 <= i < j < |s[1..]| ensures rel(s[1..][i], s[1..][j]) {
          assert s[1..][i] == s[i + 1] && s[1..][j] == s[j + 1];
        }
      }
      FilterKeepsPairwise(p, s[1..], rel);
      var t := Filter(p, s[1..]);
      forall y | y in t
        ensures rel(s[0], y)
      {
        var k :| 0 <= k < |s[1..]| && s[1..][k] == y;
        assert s[k + 1] == y;
      }
      if p(s[0]) {
        var r := Filter(p, s);
        assert r == [s[0]] + t;
        forall i, j | 0 <= i < j < |r|
          ensures rel(r[i], r[j])
        {
          if i == 0 {
            assert r[0] == s[0] && r[j] == t[j - 1] && t[j - 1] in t;
          } else {
            assert r[i] == t[i - 1] && r[j] == t[j - 1];
          }
        }
      }
    }
  }

  /** A line framed by two distinct delimiters neither of which occurs inside. */
  lemma CountFramed<T>(open: T, body: seq<T>, close: T)
    requires open !in body && close !in body && open != close
    ensures multiset([open] + body + [close])[open] == 1
    ensures multiset([open] + body + [close])[close] == 1
  {
  }

  /** Occurrences in a four-part concatenation of a value found only in its third part. */
  lemma CountOnlyIn<T>(a: seq<T>, b: seq<T>, c: seq<T>, d: seq<T>, x: T)
    requires x !in a && x !in b && x !in d
    ensures multiset(a + b + c + d)[x] == multiset(c)[x]
  {
  }
}
