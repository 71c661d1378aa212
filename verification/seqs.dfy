/**
 * Sequence operations shared by the model: the "push if not already present"
 * idiom that the build tool uses for include directories, libraries and flags,
 * flattening of build levels, and filtering.
 */
module Seqs {

  /** No element occurs twice: each element is absent from the rest of the sequence. */
  predicate NoDuplicates<T(==)>(s: seq<T>)
    decreases |s|
  {
    |s| == 0 || (s[0] !in s[1..] && NoDuplicates(s[1..]))
  }

  /** Distinct positions of a duplicate-free sequence hold distinct elements. */
  lemma {:induction false} NoDuplicatesIndex<T>(s: seq<T>, i: int, j: int)
    requires NoDuplicates(s)
    requires 0 <= i < j < |s|
    ensures s[i] != s[j]
    decreases |s|
  {
    if i == 0 {
      assert s[j] == s[1..][j - 1];
    } else {
      NoDuplicatesIndex(s[1..], i - 1, j - 1);
    }
  }

  /** A sequence is free of duplicates exactly when its multiset counts every element at most once. */
  lemma {:induction false} NoDuplicatesMultiset<T>(s: seq<T>)
    ensures NoDuplicates(s) <==> forall x :: multiset(s)[x] <= 1
    decreases |s|
  {
    if |s| > 0 {
      NoDuplicatesMultiset(s[1..]);
      assert s == [s[0]] + s[1..];
      assert multiset(s) == multiset{s[0]} + multiset(s[1..]);
      if !NoDuplicates(s) {
        if s[0] in s[1..] {
          assert multiset(s)[s[0]] >= 2;
        } else {
          var x :| multiset(s[1..])[x] > 1;
          assert multiset(s)[x] > 1;
        }
      }
    }
  }

  /** Rearranging a duplicate-free sequence keeps it duplicate-free. */
  lemma NoDuplicatesPermutation<T>(a: seq<T>, b: seq<T>)
    requires NoDuplicates(a)
    requires multiset(a) == multiset(b)
    ensures NoDuplicates(b)
  {
    NoDuplicatesMultiset(a);
    NoDuplicatesMultiset(b);
  }

  /**
   * `updated` extends `original` by appending only entries that were not yet
   * present, each at most once: the original entries keep their order.
   */
  predicate AppendsOnlyNew<T(==)>(original: seq<T>, updated: seq<T>) {
    && |original| <= |updated|
    && updated[..|original|] == original
    && forall i :: |original| <= i < |updated| ==> updated[i] !in updated[..i]
  }

  /** A sequence is the part before an index, the entry there and the part after. */
  lemma SplitAround<T>(s: seq<T>, n: nat)
    requires n < |s|
    ensures s == s[..n] + [s[n]] + s[n + 1..]
  {
    assert s[n..] == [s[n]] + s[n + 1..];
    assert s == s[..n] + s[n..];
  }

  /** An entry of the middle piece of a concatenation sits after the first piece. */
  lemma IndexMiddle<T>(a: seq<T>, b: seq<T>, c: seq<T>, k: nat)
    requires k < |b|
    ensures (a + b + c)[|a| + k] == b[k]
  {
  }

  /** A property every entry of `c` has is had by every entry of a sequence drawn from `c`. */
  lemma DrawnEntries<T>(c: seq<T>, r: seq<T>, p: T -> bool)
    requires forall i :: 0 <= i < |c| ==> p(c[i])
    requires forall x :: x in r ==> x in c
    ensures forall i :: 0 <= i < |r| ==> p(r[i])
  {
    forall i | 0 <= i < |r| ensures p(r[i]) {
      assert r[i] in c;
    }
  }

  /** A property every entry of two sequences has is had by every entry of their concatenation. */
  lemma ConcatEntries<T>(a: seq<T>, b: seq<T>, p: T -> bool)
    requires forall i :: 0 <= i < |a| ==> p(a[i])
    requires forall i :: 0 <= i < |b| ==> p(b[i])
    ensures forall i :: 0 <= i < |a + b| ==> p((a + b)[i])
  {
    forall i | 0 <= i < |a + b| ensures p((a + b)[i]) {
      if i >= |a| {
        assert (a + b)[i] == b[i - |a|];
      }
    }
  }

  lemma AppendsOnlyNewReflexive<T>(s: seq<T>)
    ensures AppendsOnlyNew(s, s)
  {
    assert s[..|s|] == s;
  }

  /** Appending only new entries twice appends only new entries. */
  lemma AppendsOnlyNewTransitive<T>(a: seq<T>, b: seq<T>, c: seq<T>)
    requires AppendsOnlyNew(a, b) && AppendsOnlyNew(b, c)
    ensures AppendsOnlyNew(a, c)
  {
    assert c[..|a|] == b[..|b|][..|a|] == a by {
      assert c[..|b|] == b;
      assert c[..|a|] == c[..|b|][..|a|];
    }
    forall i | |a| <= i < |c|
      ensures c[i] !in c[..i]
    {
      if i < |b| {
        assert c[i] == b[i];
        assert c[..i] == b[..i];
      }
    }
  }

  /**
   * For each `y` of `ys` in order, push it onto `acc` unless `acc` already
   * contains it (the `if !v.contains(&y) { v.push(y) }` loop of the source).
   */
  function AppendMissing<T(==,!new)>(acc: seq<T>, ys: seq<T>): (r: seq<T>)
    ensures AppendsOnlyNew(acc, r)
    ensures forall x :: x in r <==> x in acc || x in ys
    ensures r == acc <==> forall y :: y in ys ==> y in acc
    decreases |ys|
  {
    if |ys| == 0 then
      AppendsOnlyNewReflexive(acc);
      acc
    else
      var next := if ys[0] in acc then acc else acc + [ys[0]];
      var r := AppendMissing(next, ys[1..]);
      assert AppendsOnlyNew(acc, next) by {
        assert next[..|acc|] == acc;
      }
      AppendsOnlyNewTransitive(acc, next, r);
      assert forall x :: x in ys <==> x == ys[0] || x in ys[1..] by {
        assert ys == [ys[0]] + ys[1..];
      }
      r
  }

  lemma {:induction false} NoDuplicatesSnoc<T>(s: seq<T>, x: T)
    requires NoDuplicates(s) && x !in s
    ensures NoDuplicates(s + [x])
    decreases |s|
  {
    if |s| > 0 {
      NoDuplicatesSnoc(s[1..], x);
      assert (s + [x])[1..] == s[1..] + [x];
    } else {
      assert s + [x] == [x];
    }
  }

  /** Appending only missing entries to a duplicate-free sequence keeps it duplicate-free. */
  lemma {:induction false} AppendMissingNoDuplicates<T(!new)>(acc: seq<T>, ys: seq<T>)
    requires NoDuplicates(acc)
    ensures NoDuplicates(AppendMissing(acc, ys))
    decreases |ys|
  {
    if |ys| > 0 {
      if ys[0] !in acc {
        NoDuplicatesSnoc(acc, ys[0]);
      }
      AppendMissingNoDuplicates(if ys[0] in acc then acc else acc + [ys[0]], ys[1..]);
    }
  }

  function Flatten<T>(levels: seq<seq<T>>): (r: seq<T>)
    ensures |r| == TotalLength(levels)
    decreases |levels|
  {
    if |levels| == 0 then [] else levels[0] + Flatten(levels[1..])
  }

  /** Sum of the lengths of the levels (the `levels.iter().map(|l| l.len()).sum()` of the source). */
  function TotalLength<T>(levels: seq<seq<T>>): nat
    decreases |levels|
  {
    if |levels| == 0 then 0 else |levels[0]| + TotalLength(levels[1..])
  }

  /** The levels hold nothing exactly when every level is empty. */
  lemma {:induction false} TotalLengthZero<T>(levels: seq<seq<T>>)
    ensures TotalLength(levels) == 0 <==> forall k :: 0 <= k < |levels| ==> levels[k] == []
    decreases |levels|
  {
    if |levels| > 0 {
      TotalLengthZero(levels[1..]);
      assert forall k :: 0 < k < |levels| ==> levels[k] == levels[1..][k - 1];
    }
  }

  lemma {:induction false} InFlatten<T>(levels: seq<seq<T>>, x: T)
    ensures x in Flatten(levels) <==> exists i :: 0 <= i < |levels| && x in levels[i]
    decreases |levels|
  {
    if |levels| > 0 {
      InFlatten(levels[1..], x);
      if x in Flatten(levels[1..]) {
        var i :| 0 <= i < |levels[1..]| && x in levels[1..][i];
        assert x in levels[i + 1];
      }
      if exists i :: 0 <= i < |levels| && x in levels[i] {
        var i :| 0 <= i < |levels| && x in levels[i];
        if i > 0 {
          assert x in levels[1..][i - 1];
        }
      }
    }
  }

  /** The elements of `s` that belong to `keep`, in their original order. */
  function FilterIn<T(==,!new)>(s: seq<T>, keep: set<T>): (r: seq<T>)
    ensures |r| <= |s|
    ensures forall x :: x in r <==> x in s && x in keep
    ensures NoDuplicates(s) ==> NoDuplicates(r)
    decreases |s|
  {
    if |s| == 0 then []
    else if s[0] in keep then
      var rest := FilterIn(s[1..], keep);
      assert ([s[0]] + rest)[1..] == rest;
      [s[0]] + rest
    else FilterIn(s[1..], keep)
  }

  /** The set of the elements of a sequence. */
  function Elements<T>(s: seq<T>): set<T> {
    set x | x in s
  }

  /** `keys` lists every key of `m` exactly once: one iteration order of a hash map. */
  ghost predicate IsEnumeration<K(!new), V>(keys: seq<K>, m: map<K, V>) {
    NoDuplicates(keys) && forall k :: k in keys <==> k in m
  }

  /** Filtering an enumeration of a map's keys by a set of keys lists exactly that set. */
  lemma ElementsFilterEnumeration<K(!new), V>(keys: seq<K>, m: map<K, V>, s: set<K>)
    requires IsEnumeration(keys, m)
    requires s <= m.Keys
    ensures Elements(FilterIn(keys, s)) == s
  {
  }

  /** Filtering a duplicate-free sequence keeps exactly one copy of each kept element. */
  lemma {:induction false} FilterInLength<T(!new)>(s: seq<T>, keep: set<T>)
    requires NoDuplicates(s)
    ensures |FilterIn(s, keep)| == |Elements(s) * keep|
    decreases |s|
  {
    if |s| > 0 {
      FilterInLength(s[1..], keep);
      assert Elements(s) == {s[0]} + Elements(s[1..]);
      assert s[0] !in Elements(s[1..]);
      if s[0] in keep {
        assert Elements(s) * keep == {s[0]} + Elements(s[1..]) * keep;
      } else {
        assert Elements(s) * keep == Elements(s[1..]) * keep;
      }
    }
  }

  /** A duplicate-free sequence has as many elements as its set. */
  lemma {:induction false} NoDuplicatesCard<T>(s: seq<T>)
    requires NoDuplicates(s)
    ensures |Elements(s)| == |s|
    ensures multiset(s) == multiset(Elements(s))
    decreases |s|
  {
    if |s| > 0 {
      NoDuplicatesCard(s[1..]);
      assert s == [s[0]] + s[1..];
      assert Elements(s) == {s[0]} + Elements(s[1..]);
      assert s[0] !in Elements(s[1..]);
    }
  }

  /** A sequence has at most as many distinct elements as entries, and as many only when it has no duplicates. */
  lemma {:induction false} ElementsCard<T>(s: seq<T>)
    ensures |Elements(s)| <= |s|
    ensures |Elements(s)| == |s| ==> NoDuplicates(s)
    decreases |s|
  {
    if |s| > 0 {
      ElementsCard(s[1..]);
      assert Elements(s) == {s[0]} + Elements(s[1..]);
      if s[0] in Elements(s[1..]) {
        assert Elements(s) == Elements(s[1..]);
      }
    }
  }

  /** A strict subset of a finite set is strictly smaller. */
  lemma SubsetCard<T>(a: set<T>, b: set<T>)
    requires a <= b
    ensures |a| <= |b|
    ensures a != b ==> |a| < |b|
  {
    var extra := b - a;
    assert b == a + extra;
    if a != b {
      var x :| x in b && x !in a;
      assert x in extra;
    }
  }

  lemma {:induction false} FilterInConcat<T(!new)>(a: seq<T>, b: seq<T>, keep: set<T>)
    ensures FilterIn(a + b, keep) == FilterIn(a, keep) + FilterIn(b, keep)
    decreases |a|
  {
    if |a| > 0 {
      FilterInConcat(a[1..], b, keep);
      assert (a + b)[0] == a[0];
      assert (a + b)[1..] == a[1..] + b;
      if a[0] in keep {
        var fa, fb := FilterIn(a[1..], keep), FilterIn(b, keep);
        assert [a[0]] + fa + fb == [a[0]] + (fa + fb);
      }
    } else {
      assert a + b == b;
    }
  }

  /** Filtering by two sets that agree on the elements of `s` gives the same result. */
  lemma {:induction false} FilterInSameOn<T(!new)>(s: seq<T>, k1: set<T>, k2: set<T>)
    requires forall x :: x in s ==> (x in k1 <==> x in k2)
    ensures FilterIn(s, k1) == FilterIn(s, k2)
    decreases |s|
  {
    if |s| > 0 {
      assert forall x :: x in s[1..] ==> x in s;
      FilterInSameOn(s[1..], k1, k2);
    }
  }

  /** The position of the first occurrence of `x` in `s`. */
  function FirstIndex<T(==)>(s: seq<T>, x: T): (i: nat)
    requires x in s
    ensures i < |s| && s[i] == x
    ensures forall j :: 0 <= j < i ==> s[j] != x
    decreases |s|
  {
    if s[0] == x then 0
    else
      assert x in s[1..] by {
        var k :| 0 <= k < |s| && s[k] == x;
        assert s[1..][k - 1] == x;
      }
      1 + FirstIndex(s[1..], x)
  }

  /** Elements of `a` are first found in `a + b` where they are first found in `a`. */
  lemma FirstIndexPrefix<T>(a: seq<T>, b: seq<T>, x: T)
    requires x in a
    ensures FirstIndex(a + b, x) == FirstIndex(a, x)
  {
    var i, k := FirstIndex(a + b, x), FirstIndex(a, x);
    assert (a + b)[k] == x;
    assert a[i] == x by {
      assert i <= k;
    }
  }

  /** `r` lists elements of `s` in the order of their first occurrences in `s`. */
  ghost predicate FirstSeenOrder<T>(r: seq<T>, s: seq<T>) {
    && (forall i :: 0 <= i < |r| ==> r[i] in s)
    && forall i, j :: 0 <= i < j < |r| ==> FirstIndex(s, r[i]) < FirstIndex(s, r[j])
  }

  /** Pushing one more candidate: it is appended exactly when it is not yet there. */
  lemma {:induction false} AppendMissingSnoc<T(!new)>(acc: seq<T>, ys: seq<T>, y: T)
    ensures AppendMissing(acc, ys + [y]) == (var r := AppendMissing(acc, ys); if y in r then r else r + [y])
    decreases |ys|
  {
    if |ys| == 0 {
      assert ys + [y] == [y];
      assert [y][1..] == [];
    } else {
      assert (ys + [y])[0] == ys[0];
      assert (ys + [y])[1..] == ys[1..] + [y];
      var next := if ys[0] in acc then acc else acc + [ys[0]];
      AppendMissingSnoc(next, ys[1..], y);
    }
  }

  /** An order by first occurrence in `s` is still one once more elements follow `s`. */
  lemma FirstSeenExtend<T>(r: seq<T>, s: seq<T>, more: seq<T>)
    requires FirstSeenOrder(r, s)
    ensures FirstSeenOrder(r, s + more)
  {
    forall i | 0 <= i < |r| ensures FirstIndex(s + more, r[i]) == FirstIndex(s, r[i]) {
      FirstIndexPrefix(s, more, r[i]);
    }
  }

  /** A new element of `s` goes last in the order by first occurrence. */
  lemma FirstSeenSnoc<T>(r: seq<T>, s: seq<T>, y: T)
    requires FirstSeenOrder(r, s) && y !in s
    ensures FirstSeenOrder(r + [y], s + [y])
  {
    FirstSeenExtend(r, s, [y]);
    var r1, s1 := r + [y], s + [y];
    assert FirstIndex(s1, y) == |s|;
    forall i, j | 0 <= i < j < |r1| ensures FirstIndex(s1, r1[i]) < FirstIndex(s1, r1[j]) {
      assert r1[i] == r[i];
      if j < |r| {
        assert r1[j] == r[j];
      }
    }
  }

  /** Starting from nothing, the kept elements come in the order of their first occurrences. */
  lemma {:induction false} AppendMissingFirstSeen<T(!new)>(ys: seq<T>)
    ensures FirstSeenOrder(AppendMissing([], ys), ys)
    decreases |ys|
  {
    if |ys| > 0 {
      var init, y := ys[..|ys| - 1], ys[|ys| - 1];
      assert ys == init + [y];
      AppendMissingFirstSeen(init);
      AppendMissingSnoc([], init, y);
      var r0 := AppendMissing([], init);
      if y in r0 {
        FirstSeenExtend(r0, init, [y]);
      } else {
        FirstSeenSnoc(r0, init, y);
      }
    }
  }

  /** Reversal of a sequence of levels (`iter().rev()`). */
  function Reverse<T>(s: seq<T>): (r: seq<T>)
    ensures |r| == |s|
    ensures forall i :: 0 <= i < |s| ==> r[i] == s[|s| - 1 - i]
    decreases |s|
  {
    if |s| == 0 then [] else Reverse(s[1..]) + [s[0]]
  }
}
