// Filtering tables held as sequences, and counting what a filter removes.
module Sequences {
  function Filter<T>(s: seq<T>, keep: T -> bool): seq<T> {
    if s == [] then []
    else (if keep(s[0]) then [s[0]] else []) + Filter(s[1..], keep)
  }

  lemma {:induction false} SliceJoin<T>(s: seq<T>, a: nat, b: nat)
    requires a <= b <= |s|
    ensures s[a..b] + s[b..] == s[a..]
  {
  }

  lemma {:induction false} FilterMembers<T>(s: seq<T>, keep: T -> bool)
    ensures forall x :: x in Filter(s, keep) ==> x in s && keep(x)
    ensures forall x :: x in s && keep(x) ==> x in Filter(s, keep)
    ensures |Filter(s, keep)| <= |s|
    ensures (exists x :: x in s && !keep(x)) ==> |Filter(s, keep)| < |s|
  {
    if s != [] {
      FilterMembers(s[1..], keep);
      assert s == [s[0]] + s[1..];
    }
  }

  lemma {:induction false} FilterCongruent<T>(s: seq<T>, p: T -> bool, q: T -> bool)
    requires forall x :: x in s ==> p(x) == q(x)
    ensures Filter(s, p) == Filter(s, q)
  {
    if s != [] {
      FilterCongruent(s[1..], p, q);
    }
  }

  lemma {:induction false} FilterTwice<T>(s: seq<T>, p: T -> bool, q: T -> bool, both: T -> bool)
    requires forall x :: x in s ==> (both(x) <==> p(x) && q(x))
    ensures Filter(Filter(s, p), q) == Filter(s, both)
  {
    if s != [] {
      FilterTwice(s[1..], p, q, both);
      if p(s[0]) {
        assert Filter(s, p)[1..] == Filter(s[1..], p);
      } else {
        assert Filter(s, p) == Filter(s[1..], p);
      }
    }
  }

  ghost predicate DistinctBy<T>(s: seq<T>, id: T -> int) {
    forall i, j :: 0 <= i < j < |s| ==> id(s[i]) != id(s[j])
  }

  ghost function IdsOf<T>(s: seq<T>, id: T -> int): set<int> {
    set x | x in s :: id(x)
  }

  lemma {:induction false} FilterDistinct<T>(s: seq<T>, keep: T -> bool, id: T -> int)
    requires DistinctBy(s, id)
    ensures DistinctBy(Filter(s, keep), id)
  {
    if s != [] {
      FilterDistinct(s[1..], keep, id);
      FilterMembers(s[1..], keep);
      var rest := Filter(s[1..], keep);
      forall j | 0 <= j < |rest| ensures id(rest[j]) != id(s[0]) {
        assert rest[j] in s[1..];
        var k :| 0 <= k < |s[1..]| && s[1..][k] == rest[j];
        assert s[k + 1] == rest[j];
      }
    }
  }

  lemma {:induction false} IdsCount<T>(s: seq<T>, id: T -> int)
    requires DistinctBy(s, id)
    ensures |IdsOf(s, id)| == |s|
  {
    if s != [] {
      var n := |s| - 1;
      IdsCount(s[..n], id);
      assert s == s[..n] + [s[n]];
      assert IdsOf(s, id) == IdsOf(s[..n], id) + {id(s[n])};
      assert id(s[n]) !in IdsOf(s[..n], id);
    }
  }

  // Deleting by a set of ids, each of which names a row, removes one row per id.
  lemma {:induction false} RemovalCount<T>(s: seq<T>, keep: T -> bool, id: T -> int, ids: set<int>)
    requires DistinctBy(s, id)
    requires ids <= IdsOf(s, id)
    requires forall x :: x in s ==> (keep(x) <==> id(x) !in ids)
    ensures |s| - |Filter(s, keep)| == |ids|
  {
    if s == [] {
    } else {
      var head, tail := s[0], s[1..];
      assert s == [head] + tail;
      assert id(head) !in IdsOf(tail, id) by {
        forall x | x in tail ensures id(x) != id(head) {
          var k :| 0 <= k < |tail| && tail[k] == x;
          assert s[k + 1] == x;
        }
      }
      RemovalCount(tail, keep, id, ids - {id(head)});
    }
  }
}
