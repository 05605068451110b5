/** Order-preserving filtering, the shape of an ORM `filter(...)` over a table. */
module Seqs {

  /** The elements of `s` that satisfy `keep`, in their order in `s`. */
  function Filter<T(!new)>(s: seq<T>, keep: T -> bool): (r: seq<T>)
    ensures |r| <= |s|
    ensures forall i :: 0 <= i < |r| ==> keep(r[i])
  {
    if s == [] then []
    else Filter(s[..|s| - 1], keep) + (if keep(s[|s| - 1]) then [s[|s| - 1]] else [])
  }

  /** Every element the filter returns comes from `s`. */
  lemma {:induction false} FilterTakesFrom<T(!new)>(s: seq<T>, keep: T -> bool, x: T)
    requires x in Filter(s, keep)
    ensures x in s
  {
    var init := s[..|s| - 1];
    if x != s[|s| - 1] {
      FilterTakesFrom(init, keep, x);
      assert init[..] <= s;
    }
  }

  /** Every element of `s` that satisfies `keep` survives the filter. */
  lemma {:induction false} FilterFindsAll<T(!new)>(s: seq<T>, keep: T -> bool, x: T)
    requires x in s && keep(x)
    ensures x in Filter(s, keep)
  {
    var init := s[..|s| - 1];
    if x != s[|s| - 1] {
      assert s == init + [s[|s| - 1]];
      FilterFindsAll(init, keep, x);
    }
  }

  /** The filter keeps exactly the elements of `s` that satisfy `keep`. */
  lemma FilterMembers<T(!new)>(s: seq<T>, keep: T -> bool)
    ensures forall x :: x in Filter(s, keep) <==> x in s && keep(x)
  {
    var r := Filter(s, keep);
    forall x | x in r ensures x in s && keep(x) {
      FilterTakesFrom(s, keep, x);
      var i :| 0 <= i < |r| && r[i] == x;
    }
    forall x | x in s && keep(x) ensures x in r {
      FilterFindsAll(s, keep, x);
    }
  }

  /** When every element is kept, filtering returns the whole sequence, in order. */
  lemma {:induction false} FilterKeepsAll<T(!new)>(s: seq<T>, keep: T -> bool)
    requires forall i :: 0 <= i < |s| ==> keep(s[i])
    ensures Filter(s, keep) == s
  {
    if s != [] {
      var init, last := s[..|s| - 1], s[|s| - 1];
      forall i | 0 <= i < |init| ensures keep(init[i]) {
        assert init[i] == s[i];
      }
      FilterKeepsAll(init, keep);
      assert keep(last);
      assert init + [last] == s;
    }
  }

  /** The positions of the kept elements of `s`, ascending. */
  function KeptPositions<T(!new)>(s: seq<T>, keep: T -> bool): seq<nat> {
    if s == [] then []
    else KeptPositions(s[..|s| - 1], keep) + (if keep(s[|s| - 1]) then [|s| - 1] else [])
  }

  /** The kept positions are exactly the positions of kept elements, each once, ascending. */
  lemma {:induction false} KeptPositionsExact<T(!new)>(s: seq<T>, keep: T -> bool)
    ensures var ps := KeptPositions(s, keep);
      && (forall k :: 0 <= k < |ps| ==> ps[k] < |s| && keep(s[ps[k]]))
      && (forall k, l :: 0 <= k < l < |ps| ==> ps[k] < ps[l])
      && (forall i :: 0 <= i < |s| && keep(s[i]) ==> i in ps)
  {
    if s != [] {
      var init := s[..|s| - 1];
      KeptPositionsExact(init, keep);
      var ps := KeptPositions(s, keep);
      var qs := KeptPositions(init, keep);
      forall i | 0 <= i < |s| && keep(s[i]) ensures i in ps {
        if i < |s| - 1 {
          assert init[i] == s[i];
          assert i in qs;
        } else {
          assert ps[|ps| - 1] == i;
        }
      }
    }
  }

  /** The filter lists the kept elements in their order in `s`: its k-th element is the
      element at the k-th kept position. */
  lemma {:induction false} FilterAtKeptPositions<T(!new)>(s: seq<T>, keep: T -> bool)
    ensures var r, ps := Filter(s, keep), KeptPositions(s, keep);
      && |r| == |ps|
      && forall k :: 0 <= k < |ps| ==> ps[k] < |s| && r[k] == s[ps[k]]
  {
    if s != [] {
      var init := s[..|s| - 1];
      FilterAtKeptPositions(init, keep);
      var qs := KeptPositions(init, keep);
      forall k | 0 <= k < |qs| ensures init[qs[k]] == s[qs[k]] { }
    }
  }

  /** The filter keeps every copy of a kept element and no copy of a dropped one. */
  lemma {:induction false} FilterCount<T(!new)>(s: seq<T>, keep: T -> bool, x: T)
    ensures multiset(Filter(s, keep))[x] == if keep(x) then multiset(s)[x] else 0
  {
    if s != [] {
      var init, last := s[..|s| - 1], s[|s| - 1];
      FilterCount(init, keep, x);
      assert s == init + [last];
      assert multiset(s) == multiset(init) + multiset{last};
      assert multiset(Filter(s, keep)) == multiset(Filter(init, keep)) + multiset(if keep(last) then [last] else []);
    }
  }
}
