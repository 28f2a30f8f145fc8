/** Sizes of sets and of sequences without repetition. */
module Collections {
  lemma {:induction false} SubsetSize<T>(a: set<T>, b: set<T>)
    requires a <= b
    ensures |a| <= |b|
    decreases a
  {
    if a != {} {
      var x :| x in a;
      SubsetSize(a - {x}, b - {x});
    }
  }

  lemma {:induction false} DistinctSize<T>(s: seq<T>, all: set<T>)
    requires forall i, j :: 0 <= i < j < |s| ==> s[i] != s[j]
    requires forall x :: x in s <==> x in all
    ensures |s| == |all|
    decreases |s|
  {
    if s == [] {
      assert all == {};
    } else {
      var front, last := s[..|s| - 1], s[|s| - 1];
      assert s == front + [last];
      DistinctSize(front, all - {last});
    }
  }

  lemma DistinctMembers<T>(s: seq<T>, all: set<T>)
    requires forall i, j :: 0 <= i < j < |s| ==> s[i] != s[j]
    requires forall i :: 0 <= i < |s| ==> s[i] in all
    ensures |s| <= |all|
  {
    var members := set x | x in s;
    DistinctSize(s, members);
    SubsetSize(members, all);
  }

  /** An injective map has as many values as keys. */
  lemma {:induction false} BijectionSize<K, V>(f: map<K, V>)
    requires forall r, q :: r in f && q in f && f[r] == f[q] ==> r == q
    ensures |f.Keys| == |f.Values|
    decreases |f|
  {
    if f.Keys == {} {
      assert f.Values == {};
    } else {
      var r :| r in f.Keys;
      var g := f - {r};
      assert f.Keys == g.Keys + {r};
      forall c | c in f.Values
        ensures c in g.Values + {f[r]}
      {
        var q :| q in f && f[q] == c;
        assert q != r ==> q in g && g[q] == c;
      }
      assert f.Values == g.Values + {f[r]};
      BijectionSize(g);
    }
  }
}
