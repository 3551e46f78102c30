/** Sequence helpers shared by the store queries: reversal, `take`, and the
    stable ordering that stands for an `orderBy ... desc` clause. */
module Sequences {

  function Reverse<T>(s: seq<T>): (r: seq<T>)
    ensures |r| == |s|
    ensures forall i :: 0 <= i < |s| ==> r[i] == s[|s| - 1 - i]
  {
    if s == [] then [] else Reverse(s[1..]) + [s[0]]
  }

  lemma ReverseReverse<T>(s: seq<T>)
    ensures Reverse(Reverse(s)) == s
  {
    assert forall i :: 0 <= i < |s| ==> Reverse(Reverse(s))[i] == s[i];
  }

  lemma ReverseMultiset<T>(s: seq<T>)
    ensures multiset(Reverse(s)) == multiset(s)
  {
    if s != [] {
      ReverseMultiset(s[1..]);
      assert s == [s[0]] + s[1..];
    }
  }

  /** `take: k` of a query: the first `k` rows, or all of them when fewer. */
  function Take<T>(s: seq<T>, k: nat): (r: seq<T>)
    ensures |r| == if k < |s| then k else |s|
    ensures r <= s
  {
    if k < |s| then s[..k] else s
  }

  /** Taking `k` of the reversed sequence and reversing back gives the last `k` elements. */
  lemma ReverseTakeReverse<T>(s: seq<T>, k: nat)
    ensures Reverse(Take(Reverse(s), k)) == s[|s| - |Take(Reverse(s), k)|..]
  {
    var t := Take(Reverse(s), k);
    var r := Reverse(t);
    assert |r| == |s[|s| - |t|..]|;
    forall i | 0 <= i < |r|
      ensures r[i] == s[|s| - |t|..][i]
    {
      assert r[i] == t[|t| - 1 - i];
      assert t[|t| - 1 - i] == Reverse(s)[|t| - 1 - i];
    }
  }

  /** Ordered from the largest key to the smallest. */
  ghost predicate SortedDesc<T>(s: seq<T>, key: T -> int)
  {
    forall i, j :: 0 <= i < j < |s| ==> key(s[i]) >= key(s[j])
  }

  /** Inserts `x` in front of the first element whose key is smaller than its own. */
  function Insert<T>(x: T, s: seq<T>, key: T -> int): (r: seq<T>)
    ensures multiset(r) == multiset(s) + multiset{x}
    ensures |r| == |s| + 1
  {
    if s == [] || key(x) >= key(s[0]) then
      [x] + s
    else
      assert s == [s[0]] + s[1..];
      [s[0]] + Insert(x, s[1..], key)
  }

  lemma {:induction false} InsertSorted<T>(x: T, s: seq<T>, key: T -> int)
    requires SortedDesc(s, key)
    ensures SortedDesc(Insert(x, s, key), key)
  {
    if s != [] && key(x) < key(s[0]) {
      var tail := s[1..];
      assert SortedDesc(tail, key) by {
        forall i, j | 0 <= i < j < |tail| ensures key(tail[i]) >= key(tail[j]) {
          assert tail[i] == s[i + 1] && tail[j] == s[j + 1];
        }
      }
      var t := Insert(x, tail, key);
      InsertSorted(x, tail, key);
      assert key(s[0]) >= key(t[0]) by {
        if tail != [] && key(x) < key(tail[0]) {
          assert t[0] == tail[0] == s[1];
        }
      }
      var r := [s[0]] + t;
      forall i, j | 0 <= i < j < |r| ensures key(r[i]) >= key(r[j]) {
        if i == 0 {
          assert r[j] == t[j - 1];
          if j > 1 {
            assert key(t[0]) >= key(t[j - 1]);
          }
        } else {
          assert r[i] == t[i - 1] && r[j] == t[j - 1];
        }
      }
    }
  }

  /** Stable insertion sort by descending key: of two elements with equal keys the one that
      comes first in `s` stays first. */
  function SortDesc<T>(s: seq<T>, key: T -> int): (r: seq<T>)
    ensures multiset(r) == multiset(s)
    ensures |r| == |s|
    ensures SortedDesc(r, key)
  {
    if s == [] then [] else
      assert s == [s[0]] + s[1..];
      InsertSorted(s[0], SortDesc(s[1..], key), key);
      Insert(s[0], SortDesc(s[1..], key), key)
  }

  /** A sequence that is already in descending order is left as it is. */
  lemma {:induction false} SortDescOfSorted<T>(s: seq<T>, key: T -> int)
    requires SortedDesc(s, key)
    ensures SortDesc(s, key) == s
  {
    if s != [] {
      assert SortedDesc(s[1..], key);
      SortDescOfSorted(s[1..], key);
    }
  }

  /** Two descending orderings of the same elements are one and the same when no two elements
      of the first share a key. */
  lemma {:induction false} SortedDescUnique<T>(a: seq<T>, b: seq<T>, key: T -> int)
    requires multiset(a) == multiset(b)
    requires SortedDesc(a, key) && SortedDesc(b, key)
    requires forall i, j :: 0 <= i < j < |a| ==> key(a[i]) != key(a[j])
    ensures a == b
  {
    if a != [] {
      SameHead(a, b, key);
      MultisetTail(a, b);
      var a', b' := a[1..], b[1..];
      forall i, j | 0 <= i < j < |a'| ensures key(a'[i]) >= key(a'[j]) && key(a'[i]) != key(a'[j]) {
        assert a'[i] == a[i + 1] && a'[j] == a[j + 1];
      }
      forall i, j | 0 <= i < j < |b'| ensures key(b'[i]) >= key(b'[j]) {
        assert b'[i] == b[i + 1] && b'[j] == b[j + 1];
      }
      SortedDescUnique(a', b', key);
      assert a == [a[0]] + a' && b == [b[0]] + b';
    }
  }

  /** The first elements of two such orderings agree. */
  lemma SameHead<T>(a: seq<T>, b: seq<T>, key: T -> int)
    requires a != [] && multiset(a) == multiset(b)
    requires SortedDesc(a, key) && SortedDesc(b, key)
    requires forall i, j :: 0 <= i < j < |a| ==> key(a[i]) != key(a[j])
    ensures b != [] && a[0] == b[0]
  {
    assert a[0] in multiset(b);
    var m :| 0 <= m < |b| && b[m] == a[0];
    assert b[0] in multiset(a);
    var k :| 0 <= k < |a| && a[k] == b[0];
    assert key(a[0]) <= key(b[0]) by {
      if m > 0 { assert key(b[0]) >= key(b[m]); }
    }
    assert k == 0;
  }

  /** Removing the same first element leaves the same elements. */
  lemma MultisetTail<T>(a: seq<T>, b: seq<T>)
    requires a != [] && b != [] && a[0] == b[0] && multiset(a) == multiset(b)
    ensures multiset(a[1..]) == multiset(b[1..])
  {
    assert a == [a[0]] + a[1..] && b == [b[0]] + b[1..];
    assert multiset(a) == multiset{a[0]} + multiset(a[1..]);
    assert multiset(b) == multiset{a[0]} + multiset(b[1..]);
    forall x ensures multiset(a[1..])[x] == multiset(b[1..])[x] {
      assert multiset(a)[x] == multiset{a[0]}[x] + multiset(a[1..])[x];
      assert multiset(b)[x] == multiset{a[0]}[x] + multiset(b[1..])[x];
    }
  }



  /** The elements that satisfy `keep`, in their order (`where` of a query, `filter`). */
  function Filter<T(!new)>(s: seq<T>, keep: T -> bool): (r: seq<T>)
    ensures forall x :: x in r <==> x in s && keep(x)
    ensures |r| <= |s|
  {
    if s == [] then []
    else
      var last := s[|s| - 1];
      assert s == s[..|s| - 1] + [last];
      Filter(s[..|s| - 1], keep) + (if keep(last) then [last] else [])
  }

  /** When `keep` holds at exactly the first `j` positions, filtering keeps those `j`. */
  lemma {:induction false} FilterPrefix<T(!new)>(s: seq<T>, keep: T -> bool, j: nat)
    requires j <= |s|
    requires forall i :: 0 <= i < |s| ==> (keep(s[i]) <==> i < j)
    ensures Filter(s, keep) == s[..j]
  {
    if s != [] {
      var init := s[..|s| - 1];
      var last := s[|s| - 1];
      assert s == init + [last];
      if j == |s| {
        FilterPrefix(init, keep, |init|);
        assert keep(s[|s| - 1]);
      } else {
        FilterPrefix(init, keep, j);
        assert !keep(s[|s| - 1]);
        assert init[..j] == s[..j];
      }
    }
  }

  ghost predicate StrictlyIncreasing<T>(s: seq<T>, key: T -> int)
  {
    forall i, j :: 0 <= i < j < |s| ==> key(s[i]) < key(s[j])
  }

  /** The key increases from each element to the next, stated by peeling the last element. */
  predicate Ascending<T>(s: seq<T>, key: T -> int)
  {
    |s| < 2 || (key(s[|s| - 2]) < key(s[|s| - 1]) && Ascending(s[..|s| - 1], key))
  }

  /** Increasing between neighbours is increasing between any two positions. */
  lemma {:induction false} AscendingIff<T>(s: seq<T>, key: T -> int)
    ensures Ascending(s, key) <==> StrictlyIncreasing(s, key)
  {
    if |s| >= 2 {
      var init := s[..|s| - 1];
      AscendingIff(init, key);
      if Ascending(s, key) {
        forall i, j | 0 <= i < j < |s| ensures key(s[i]) < key(s[j]) {
          if j < |s| - 1 {
            assert init[i] == s[i] && init[j] == s[j];
          } else if i < |s| - 2 {
            assert init[i] == s[i] && init[|s| - 2] == s[|s| - 2];
          }
        }
      }
      if StrictlyIncreasing(s, key) {
        assert StrictlyIncreasing(init, key);
      }
    }
  }

  /** Appending an element above the last keeps the key ascending. */
  lemma AscendingAppend<T>(s: seq<T>, x: T, key: T -> int)
    requires Ascending(s, key)
    requires |s| > 0 ==> key(s[|s| - 1]) < key(x)
    ensures Ascending(s + [x], key)
  {
    assert (s + [x])[..|s|] == s;
  }

  /** Deleting one element keeps the key ascending. */
  lemma AscendingRemove<T>(s: seq<T>, k: nat, key: T -> int)
    requires k < |s| && Ascending(s, key)
    ensures Ascending(s[..k] + s[k + 1..], key)
  {
    AscendingIff(s, key);
    var r := s[..k] + s[k + 1..];
    forall i, j | 0 <= i < j < |r| ensures key(r[i]) < key(r[j]) {
      var i' := if i < k then i else i + 1;
      var j' := if j < k then j else j + 1;
      assert r[i] == s[i'] && r[j] == s[j'];
    }
    AscendingIff(r, key);
  }

  /** Dropping elements keeps a strictly increasing key strictly increasing. */
  lemma {:induction false} FilterIncreasing<T(!new)>(s: seq<T>, keep: T -> bool, key: T -> int)
    requires StrictlyIncreasing(s, key)
    ensures StrictlyIncreasing(Filter(s, keep), key)
  {
    if s != [] {
      var init := s[..|s| - 1];
      var last := s[|s| - 1];
      assert StrictlyIncreasing(init, key);
      FilterIncreasing(init, keep, key);
      var f := Filter(init, keep);
      forall i | 0 <= i < |f| ensures key(f[i]) < key(last) {
        assert f[i] in init;
        var k :| 0 <= k < |init| && init[k] == f[i];
        assert s[k] == f[i];
      }
    }
  }

  ghost predicate NonDecreasing<T>(s: seq<T>, key: T -> int)
  {
    forall i, j :: 0 <= i < j < |s| ==> key(s[i]) <= key(s[j])
  }

  /** The key never falls from each element to the next, stated by peeling the last element. */
  predicate Rising<T>(s: seq<T>, key: T -> int)
  {
    |s| < 2 || (key(s[|s| - 2]) <= key(s[|s| - 1]) && Rising(s[..|s| - 1], key))
  }

  /** Non-decreasing between neighbours is non-decreasing between any two positions. */
  lemma {:induction false} RisingIff<T>(s: seq<T>, key: T -> int)
    ensures Rising(s, key) <==> NonDecreasing(s, key)
  {
    if |s| >= 2 {
      var init := s[..|s| - 1];
      RisingIff(init, key);
      if Rising(s, key) {
        forall i, j | 0 <= i < j < |s| ensures key(s[i]) <= key(s[j]) {
          if j < |s| - 1 {
            assert init[i] == s[i] && init[j] == s[j];
          } else if i < |s| - 2 {
            assert init[i] == s[i] && init[|s| - 2] == s[|s| - 2];
          }
        }
      }
      if NonDecreasing(s, key) {
        assert NonDecreasing(init, key);
      }
    }
  }

  /** Concatenation regroups. Stated on its own, so that a caller's loop does not pay for
      the extensional proof in its larger context. */
  lemma AppendAssoc<T>(a: seq<T>, b: seq<T>, c: seq<T>)
    ensures (a + b) + c == a + (b + c)
  {
  }

  /** A prefix is the shorter prefix followed by the slice between them. */
  lemma SplitPrefix<T>(s: seq<T>, j: nat, n: nat)
    requires j <= n <= |s|
    ensures s[..j] + s[j..n] == s[..n]
  {
  }

  /** A prefix of a rising sequence rises. */
  lemma {:induction false} RisingPrefix<T>(s: seq<T>, n: nat, key: T -> int)
    requires Rising(s, key) && n <= |s|
    ensures Rising(s[..n], key)
    decreases |s|
  {
    if n < |s| {
      var init := s[..|s| - 1];
      RisingPrefix(init, n, key);
      assert init[..n] == s[..n];
    } else {
      assert s[..n] == s;
    }
  }

  /** Dropping elements keeps a non-decreasing key non-decreasing. */
  lemma {:induction false} FilterNonDecreasing<T(!new)>(s: seq<T>, keep: T -> bool, key: T -> int)
    requires NonDecreasing(s, key)
    ensures NonDecreasing(Filter(s, keep), key)
  {
    if s != [] {
      var init := s[..|s| - 1];
      var last := s[|s| - 1];
      assert NonDecreasing(init, key);
      FilterNonDecreasing(init, keep, key);
      var f := Filter(init, keep);
      forall i | 0 <= i < |f| ensures key(f[i]) <= key(last) {
        assert f[i] in init;
        var k :| 0 <= k < |init| && init[k] == f[i];
        assert s[k] == f[i];
      }
    }
  }

  /** A stricter condition keeps fewer elements when some element passes only the looser one. */
  lemma {:induction false} FilterStricter<T(!new)>(s: seq<T>, loose: T -> bool, strict: T -> bool, y: T)
    requires forall x :: strict(x) ==> loose(x)
    requires y in s && loose(y) && !strict(y)
    ensures |Filter(s, strict)| < |Filter(s, loose)|
  {
    var init := s[..|s| - 1];
    var last := s[|s| - 1];
    FilterShrinks(init, loose, strict);
    if y != last {
      assert y in init by {
        var k :| 0 <= k < |s| && s[k] == y;
        assert k < |s| - 1 && init[k] == y;
      }
      FilterStricter(init, loose, strict, y);
    }
  }

  lemma {:induction false} FilterShrinks<T(!new)>(s: seq<T>, loose: T -> bool, strict: T -> bool)
    requires forall x :: strict(x) ==> loose(x)
    ensures |Filter(s, strict)| <= |Filter(s, loose)|
  {
    if s != [] {
      FilterShrinks(s[..|s| - 1], loose, strict);
    }
  }
}
