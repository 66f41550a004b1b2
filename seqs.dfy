/** Sequence facts shared by the live-state broadcaster and the line rewriter:
    order-preserving embedding (subsequence), filtering out a set of elements,
    and Python's `list.remove` (drop the first occurrence, if any). */
module Seqs {

  /** `a` can be obtained from `b` by deleting elements: every element of `a`
      occurs in `b`, in the same relative order. */
  predicate Subseq<T(==)>(a: seq<T>, b: seq<T>)
    decreases |b|
  {
    a == [] || (b != [] && ((a[0] == b[0] && Subseq(a[1..], b[1..])) || Subseq(a, b[1..])))
  }

  lemma {:induction false} SubseqLength<T>(a: seq<T>, b: seq<T>)
    requires Subseq(a, b)
    ensures |a| <= |b|
    decreases |b|
  {
    if a != [] {
      if a[0] == b[0] && Subseq(a[1..], b[1..]) {
        SubseqLength(a[1..], b[1..]);
      } else {
        SubseqLength(a, b[1..]);
      }
    }
  }

  lemma {:induction false} SubseqRefl<T>(a: seq<T>)
    ensures Subseq(a, a)
    decreases |a|
  {
    if a != [] {
      SubseqRefl(a[1..]);
    }
  }

  /** Inserting anything in front of `b` keeps `a` a subsequence of it. */
  lemma {:induction false} SubseqPrepend<T>(a: seq<T>, e: seq<T>, b: seq<T>)
    requires Subseq(a, b)
    ensures Subseq(a, e + b)
    decreases |e|
  {
    if e == [] {
      assert e + b == b;
    } else if a != [] {
      SubseqPrepend(a, e[1..], b);
      assert (e + b)[1..] == e[1..] + b;
    }
  }

  /** Appending anything after `b` keeps `a` a subsequence of it. */
  lemma {:induction false} SubseqAppend<T>(a: seq<T>, b: seq<T>, e: seq<T>)
    requires Subseq(a, b)
    ensures Subseq(a, b + e)
    decreases |b|
  {
    if a != [] {
      assert (b + e)[1..] == b[1..] + e;
      if a[0] == b[0] && Subseq(a[1..], b[1..]) {
        SubseqAppend(a[1..], b[1..], e);
      } else {
        SubseqAppend(a, b[1..], e);
      }
    }
  }

  /** A common first element can be matched against itself. */
  lemma SubseqCons<T>(x: T, a: seq<T>, b: seq<T>)
    requires Subseq(a, b)
    ensures Subseq([x] + a, [x] + b)
  {
    assert ([x] + a)[1..] == a;
    assert ([x] + b)[1..] == b;
  }

  /** A common last element can be matched against itself. */
  lemma {:induction false} SubseqCons2<T>(a: seq<T>, b: seq<T>, x: T)
    requires Subseq(a, b)
    ensures Subseq(a + [x], b + [x])
    decreases |b|
  {
    if a == [] {
      SubseqRefl([x]);
      SubseqPrepend([x], b, [x]);
      assert a + [x] == [x];
    } else if a[0] == b[0] && Subseq(a[1..], b[1..]) {
      SubseqCons2(a[1..], b[1..], x);
      assert (a + [x])[1..] == a[1..] + [x];
      assert (b + [x])[1..] == b[1..] + [x];
    } else {
      SubseqCons2(a, b[1..], x);
      assert (b + [x])[1..] == b[1..] + [x];
    }
  }

  /** Every element of a subsequence is an element of the whole. */
  lemma {:induction false} SubseqMembers<T>(a: seq<T>, b: seq<T>)
    requires Subseq(a, b)
    ensures forall k :: 0 <= k < |a| ==> a[k] in b
    decreases |b|
  {
    if a != [] {
      if a[0] == b[0] && Subseq(a[1..], b[1..]) {
        SubseqMembers(a[1..], b[1..]);
        assert forall k :: 1 <= k < |a| ==> a[k] == a[1..][k - 1];
      } else {
        SubseqMembers(a, b[1..]);
      }
    }
  }

  lemma {:induction false} SubseqTrans<T>(a: seq<T>, b: seq<T>, c: seq<T>)
    requires Subseq(a, b) && Subseq(b, c)
    ensures Subseq(a, c)
    decreases |c|
  {
    if a != [] {
      if b[0] == c[0] && Subseq(b[1..], c[1..]) {
        if a[0] == b[0] && Subseq(a[1..], b[1..]) {
          SubseqTrans(a[1..], b[1..], c[1..]);
        } else {
          SubseqTrans(a, b[1..], c[1..]);
        }
      } else {
        SubseqTrans(a, b, c[1..]);
      }
    }
  }

  /** Filtering both sides keeps a subsequence a subsequence. */
  lemma {:induction false} SubseqWithout<T>(a: seq<T>, b: seq<T>, d: set<T>)
    requires Subseq(a, b)
    ensures Subseq(Without(a, d), Without(b, d))
    decreases |b|
  {
    if a != [] {
      if a[0] == b[0] && Subseq(a[1..], b[1..]) {
        SubseqWithout(a[1..], b[1..], d);
        if a[0] !in d {
          SubseqCons(a[0], Without(a[1..], d), Without(b[1..], d));
        }
      } else {
        SubseqWithout(a, b[1..], d);
        if b[0] !in d {
          SubseqPrepend(Without(a, d), [b[0]], Without(b[1..], d));
        }
      }
    }
  }

  /** A prefix one longer is the prefix and the next element. */
  lemma TakeOneMore<T>(s: seq<T>, i: int)
    requires 0 <= i < |s|
    ensures s[..i + 1] == s[..i] + [s[i]]
  {
  }

  predicate Distinct<T(==)>(s: seq<T>)
  {
    forall i, j :: 0 <= i < j < |s| ==> s[i] != s[j]
  }

  function Elems<T>(s: seq<T>): set<T>
  {
    set x | x in s
  }

  /** Removing the elements of `dead` one at a time with `list.remove` is
      filtering them out, one more at each step. */
  lemma RemoveNext<T>(s: seq<T>, dead: seq<T>, j: int)
    requires Distinct(s) && 0 <= j < |dead|
    ensures RemoveFirst(Without(s, Elems(dead[..j])), dead[j]) == Without(s, Elems(dead[..j + 1]))
  {
    var before := Elems(dead[..j]);
    assert Elems(dead[..j + 1]) == before + {dead[j]} by {
      assert dead[..j + 1] == dead[..j] + [dead[j]];
    }
    assert RemoveFirst(Without(s, before), dead[j]) == Without(Without(s, before), {dead[j]}) by {
      WithoutDistinct(s, before);
      RemoveFirstDistinct(Without(s, before), dead[j]);
    }
    WithoutWithout(s, before, {dead[j]});
  }

  /** The elements of `s` that are not in `d`, in their original order. */
  function Without<T(==)>(s: seq<T>, d: set<T>): (r: seq<T>)
    ensures |r| <= |s|
    ensures forall i :: 0 <= i < |r| ==> r[i] in s && r[i] !in d
    ensures forall i :: 0 <= i < |s| && s[i] !in d ==> s[i] in r
    decreases |s|
  {
    if s == [] then []
    else if s[0] in d then Without(s[1..], d)
    else [s[0]] + Without(s[1..], d)
  }

  lemma {:induction false} WithoutMember<T>(s: seq<T>, d: set<T>, x: T)
    ensures x in Without(s, d) <==> x in s && x !in d
    decreases |s|
  {
    if s != [] {
      WithoutMember(s[1..], d, x);
      assert s == [s[0]] + s[1..];
    }
  }

  /** Survivors of a filter keep their relative order. */
  lemma {:induction false} WithoutSubseq<T>(s: seq<T>, d: set<T>)
    ensures Subseq(Without(s, d), s)
    decreases |s|
  {
    if s != [] {
      WithoutSubseq(s[1..], d);
      if s[0] in d {
        SubseqPrepend(Without(s[1..], d), [s[0]], s[1..]);
        assert [s[0]] + s[1..] == s;
      } else {
        SubseqCons(s[0], Without(s[1..], d), s[1..]);
        assert [s[0]] + s[1..] == s;
      }
    }
  }

  lemma {:induction false} WithoutDistinct<T>(s: seq<T>, d: set<T>)
    requires Distinct(s)
    ensures Distinct(Without(s, d))
    decreases |s|
  {
    if s != [] {
      WithoutDistinct(s[1..], d);
    }
  }

  lemma {:induction false} WithoutEmpty<T>(s: seq<T>)
    ensures Without(s, {}) == s
    decreases |s|
  {
    if s != [] {
      WithoutEmpty(s[1..]);
    }
  }

  lemma {:induction false} WithoutAppend<T>(s: seq<T>, t: seq<T>, d: set<T>)
    ensures Without(s + t, d) == Without(s, d) + Without(t, d)
    decreases |s|
  {
    if s == [] {
      assert s + t == t;
    } else {
      assert (s + t)[1..] == s[1..] + t;
      WithoutAppend(s[1..], t, d);
    }
  }

  /** Python's `list.remove(x)`: drop the first occurrence of `x`; when `x` is
      absent, the `ValueError` it raises is swallowed by every caller here, so
      the list is left as it was. */
  function RemoveFirst<T(==)>(s: seq<T>, x: T): (r: seq<T>)
    ensures x in s ==> |r| == |s| - 1
    ensures x !in s ==> r == s
    decreases |s|
  {
    if s == [] then []
    else if s[0] == x then s[1..]
    else [s[0]] + RemoveFirst(s[1..], x)
  }

  /** On a list without duplicates, removing `x` once removes it entirely and
      keeps every other element in order. */
  lemma {:induction false} RemoveFirstDistinct<T>(s: seq<T>, x: T)
    requires Distinct(s)
    ensures RemoveFirst(s, x) == Without(s, {x})
    decreases |s|
  {
    if s != [] {
      if s[0] == x {
        assert forall i :: 0 <= i < |s[1..]| ==> s[1..][i] != x by {
          forall i | 0 <= i < |s[1..]| ensures s[1..][i] != x {
            assert s[1..][i] == s[i + 1];
          }
        }
        WithoutNotIn(s[1..], {x});
      } else {
        RemoveFirstDistinct(s[1..], x);
      }
    }
  }

  /** Filtering out elements that do not occur changes nothing. */
  lemma {:induction false} WithoutNotIn<T>(s: seq<T>, d: set<T>)
    requires forall i :: 0 <= i < |s| ==> s[i] !in d
    ensures Without(s, d) == s
    decreases |s|
  {
    if s != [] {
      WithoutNotIn(s[1..], d);
    }
  }

  /** Removing one more element from an already filtered list is filtering by
      the larger set. */
  lemma {:induction false} WithoutWithout<T>(s: seq<T>, d: set<T>, e: set<T>)
    ensures Without(Without(s, d), e) == Without(s, d + e)
    decreases |s|
  {
    if s != [] {
      WithoutWithout(s[1..], d, e);
    }
  }
}
