/** The ordering step of src/main.rs: `target_info.sort_by(|a, b|
    b.size.cmp(&a.size))`, a stable in-place sort that puts the largest
    directories first and keeps equally large ones in measured order. */
module Ordering {
  import opened FileSystem

  /** Largest first. */
  ghost predicate SortedBySize(s: seq<TargetDirInfo>)
  {
    forall i, j :: 0 <= i < j < |s| ==> s[i].size >= s[j].size
  }

  /** Places `x` after every element of `s` at least as large as it. */
  function Insert(s: seq<TargetDirInfo>, x: TargetDirInfo): seq<TargetDirInfo>
  {
    if s == [] || s[|s| - 1].size >= x.size then s + [x]
    else Insert(s[..|s| - 1], x) + [s[|s| - 1]]
  }

  /** The order `sort_by` leaves: each element inserted in turn. */
  function SortDesc(s: seq<TargetDirInfo>): seq<TargetDirInfo>
  {
    if s == [] then [] else Insert(SortDesc(s[..|s| - 1]), s[|s| - 1])
  }

  /** The elements of `s` of size `k`, in order. */
  function WithSize(s: seq<TargetDirInfo>, k: nat): seq<TargetDirInfo>
  {
    if s == [] then []
    else WithSize(s[..|s| - 1], k) + (if s[|s| - 1].size == k then [s[|s| - 1]] else [])
  }

  /** The sum of the sizes, as the report's total row adds them. */
  function Total(s: seq<TargetDirInfo>): nat
  {
    if s == [] then 0 else s[0].size + Total(s[1..])
  }

  // ---- Insert.

  lemma {:induction false} InsertPermutes(s: seq<TargetDirInfo>, x: TargetDirInfo)
    ensures multiset(Insert(s, x)) == multiset(s) + multiset{x}
    ensures |Insert(s, x)| == |s| + 1
    decreases |s|
  {
    if s != [] && s[|s| - 1].size < x.size {
      var init, last := s[..|s| - 1], s[|s| - 1];
      assert s == init + [last];
      InsertPermutes(init, x);
    }
  }

  lemma {:induction false} InsertSorted(s: seq<TargetDirInfo>, x: TargetDirInfo)
    requires SortedBySize(s)
    ensures SortedBySize(Insert(s, x))
    ensures forall i :: 0 <= i < |Insert(s, x)| ==>
      Insert(s, x)[i] == x || Insert(s, x)[i] in s
    decreases |s|
  {
    InsertPermutes(s, x);
    if s != [] && s[|s| - 1].size < x.size {
      var init, last := s[..|s| - 1], s[|s| - 1];
      InsertSorted(init, x);
      var r := Insert(init, x);
      InsertPermutes(init, x);
      forall i | 0 <= i < |r| ensures r[i].size >= last.size {
        if r[i] != x {
          var k :| 0 <= k < |init| && init[k] == r[i];
        }
      }
    }
  }

  /** Inserting keeps the elements of each size in order, with `x` after
      the ones already there. */
  lemma {:induction false} InsertStable(s: seq<TargetDirInfo>, x: TargetDirInfo, k: nat)
    ensures WithSize(Insert(s, x), k) == WithSize(s, k) + (if x.size == k then [x] else [])
    decreases |s|
  {
    if s == [] || s[|s| - 1].size >= x.size {
      assert (s + [x])[..|s|] == s;
    } else {
      var init, last := s[..|s| - 1], s[|s| - 1];
      var r := Insert(init, x);
      InsertStable(init, x, k);
      assert (r + [last])[..|r|] == r;
    }
  }

  lemma {:induction false} TotalAppend(a: seq<TargetDirInfo>, b: seq<TargetDirInfo>)
    ensures Total(a + b) == Total(a) + Total(b)
    decreases |a|
  {
    if a == [] {
      assert a + b == b;
    } else {
      assert (a + b)[1..] == a[1..] + b;
      TotalAppend(a[1..], b);
    }
  }

  lemma {:induction false} InsertTotal(s: seq<TargetDirInfo>, x: TargetDirInfo)
    ensures Total(Insert(s, x)) == Total(s) + x.size
    decreases |s|
  {
    if s == [] || s[|s| - 1].size >= x.size {
      TotalAppend(s, [x]);
    } else {
      var init, last := s[..|s| - 1], s[|s| - 1];
      InsertTotal(init, x);
      TotalAppend(Insert(init, x), [last]);
      TotalAppend(init, [last]);
      assert init + [last] == s;
    }
  }

  // ---- SortDesc.

  /** The sorted list is a permutation of its input in non-increasing size
      order. */
  lemma {:induction false} SortDescCorrect(s: seq<TargetDirInfo>)
    ensures SortedBySize(SortDesc(s))
    ensures multiset(SortDesc(s)) == multiset(s)
    ensures |SortDesc(s)| == |s|
    decreases |s|
  {
    if s != [] {
      var init, last := s[..|s| - 1], s[|s| - 1];
      SortDescCorrect(init);
      InsertSorted(SortDesc(init), last);
      InsertPermutes(SortDesc(init), last);
      assert s == init + [last];
    }
  }

  /** The sort is stable: for every size, the directories of that size keep
      their measured order. */
  lemma {:induction false} SortDescStable(s: seq<TargetDirInfo>, k: nat)
    ensures WithSize(SortDesc(s), k) == WithSize(s, k)
    decreases |s|
  {
    if s != [] {
      var init, last := s[..|s| - 1], s[|s| - 1];
      SortDescStable(init, k);
      InsertStable(SortDesc(init), last, k);
    }
  }

  /** Sorting does not change the total. */
  lemma {:induction false} SortDescTotal(s: seq<TargetDirInfo>)
    ensures Total(SortDesc(s)) == Total(s)
    decreases |s|
  {
    if s != [] {
      var init, last := s[..|s| - 1], s[|s| - 1];
      SortDescTotal(init);
      InsertTotal(SortDesc(init), last);
      TotalAppend(init, [last]);
      assert s == init + [last];
    }
  }

  /** No row's path lies below the path of another row. */
  predicate PrefixFreeRows(s: seq<TargetDirInfo>)
  {
    forall i, j :: 0 <= i < |s| && 0 <= j < |s| && i != j ==> !(s[i].path <= s[j].path)
  }

  lemma AppendPrefixFree(m: seq<TargetDirInfo>, y: TargetDirInfo)
    requires PrefixFreeRows(m)
    requires forall t :: t in m ==> !(t.path <= y.path) && !(y.path <= t.path)
    ensures PrefixFreeRows(m + [y])
  {
    var r := m + [y];
    forall i, j | 0 <= i < |r| && 0 <= j < |r| && i != j ensures !(r[i].path <= r[j].path) {
      if i < |m| && j < |m| {
        assert r[i] == m[i] && r[j] == m[j];
      } else if i < |m| {
        assert r[i] in m;
      } else {
        assert r[j] in m;
      }
    }
  }

  lemma {:induction false} InsertPrefixFree(s: seq<TargetDirInfo>, x: TargetDirInfo)
    requires PrefixFreeRows(s)
    requires forall t :: t in s ==> !(t.path <= x.path) && !(x.path <= t.path)
    ensures PrefixFreeRows(Insert(s, x))
    decreases |s|
  {
    if s == [] || s[|s| - 1].size >= x.size {
      AppendPrefixFree(s, x);
    } else {
      var init, last := s[..|s| - 1], s[|s| - 1];
      assert forall k :: 0 <= k < |init| ==> init[k] == s[k];
      InsertPrefixFree(init, x);
      var m := Insert(init, x);
      InsertPermutes(init, x);
      forall t | t in m ensures !(t.path <= last.path) && !(last.path <= t.path) {
        assert t in multiset(m);
        if t != x {
          var k :| 0 <= k < |init| && init[k] == t;
          assert s[k] == t;
        }
      }
      AppendPrefixFree(m, last);
    }
  }

  /** Sorting keeps the rows' paths free of one another. */
  lemma {:induction false} SortDescPrefixFree(s: seq<TargetDirInfo>)
    requires PrefixFreeRows(s)
    ensures PrefixFreeRows(SortDesc(s))
    decreases |s|
  {
    if s != [] {
      var init, last := s[..|s| - 1], s[|s| - 1];
      assert forall k :: 0 <= k < |init| ==> init[k] == s[k];
      SortDescPrefixFree(init);
      SortDescCorrect(init);
      forall t | t in SortDesc(init) ensures !(t.path <= last.path) && !(last.path <= t.path) {
        assert t in multiset(SortDesc(init));
        var k :| 0 <= k < |init| && init[k] == t;
      }
      InsertPrefixFree(SortDesc(init), last);
    }
  }

  // ---- The in-place sort.

  /** `target_info.sort_by(|a, b| b.size.cmp(&a.size))`, as an insertion
      sort: each element in turn is moved left past the smaller ones. */
  method SortBySize(a: array<TargetDirInfo>)
    modifies a
    ensures a[..] == SortDesc(old(a[..]))
  {
    ghost var input := a[..];
    var i := 0;
    while i < a.Length
      invariant 0 <= i <= a.Length
      invariant a[..i] == SortDesc(input[..i])
      invariant a[i..] == input[i..]
    {
      assert input[..i + 1][..i] == input[..i];
      assert a[i] == input[i];
      InsertLast(a, i);
      i := i + 1;
    }
    assert input[..a.Length] == input;
  }

  /** Moves `a[i]` left past the smaller elements before it, shifting them
      one slot right. */
  method InsertLast(a: array<TargetDirInfo>, i: nat)
    requires i < a.Length
    modifies a
    ensures a[..i + 1] == Insert(old(a[..i]), old(a[i]))
    ensures a[i + 1..] == old(a[i + 1..])
  {
    var key := a[i];
    ghost var sorted := a[..i];
    var j := i;
    while j > 0 && a[j - 1].size < key.size
      invariant 0 <= j <= i
      invariant forall k :: 0 <= k < j ==> a[k] == sorted[k]
      invariant forall k :: j < k <= i ==> a[k] == sorted[k - 1]
      invariant forall k :: i < k < a.Length ==> a[k] == old(a[k])
      invariant forall k :: j <= k < i ==> sorted[k].size < key.size
    {
      a[j] := a[j - 1];
      j := j - 1;
    }
    a[j] := key;
    InsertAt(sorted, key, j);
    Reassembled(a[..i + 1], sorted, key, j);
  }

  /** Where `Insert` puts `x`: after the last element at least as large,
      before the smaller ones that follow it. */
  lemma {:induction false} InsertAt(s: seq<TargetDirInfo>, x: TargetDirInfo, j: nat)
    requires j <= |s| && (j == 0 || s[j - 1].size >= x.size)
    requires forall k :: j <= k < |s| ==> s[k].size < x.size
    ensures Insert(s, x) == s[..j] + [x] + s[j..]
    decreases |s|
  {
    if j < |s| {
      var init, last := s[..|s| - 1], s[|s| - 1];
      assert init[..j] == s[..j];
      InsertAt(init, x, j);
      assert s[j..] == init[j..] + [last];
    } else {
      assert s[..j] == s;
    }
  }

  /** The array prefix the shifting loop leaves is the sorted prefix with
      `x` put in slot `j`. */
  lemma Reassembled(r: seq<TargetDirInfo>, s: seq<TargetDirInfo>, x: TargetDirInfo, j: nat)
    requires j <= |s| && |r| == |s| + 1 && r[j] == x
    requires forall k :: 0 <= k < j ==> r[k] == s[k]
    requires forall k :: j < k < |r| ==> r[k] == s[k - 1]
    ensures r == s[..j] + [x] + s[j..]
  {
  }
}
