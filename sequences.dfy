/**
  Sequence operations used to model the `List<T>` manipulations of the coverage
  loader: keeping or collecting the elements an exclusion test holds for, and
  `List<T>.Remove`, which drops the first element equal to its argument.
 */
module Sequences {

  /** The elements of `s` that `isExcluded` rejects, in their original order. */
  function WithoutExcluded<T>(isExcluded: T -> bool, s: seq<T>): (r: seq<T>)
    ensures |r| <= |s|
  {
    if s == [] then []
    else (if isExcluded(s[0]) then [] else [s[0]]) + WithoutExcluded(isExcluded, s[1..])
  }

  /** The elements of `s` that `isExcluded` accepts, in their original order. */
  function OnlyExcluded<T>(isExcluded: T -> bool, s: seq<T>): (r: seq<T>)
    ensures |r| <= |s|
  {
    if s == [] then []
    else (if isExcluded(s[0]) then [s[0]] else []) + OnlyExcluded(isExcluded, s[1..])
  }

  /** `List<T>.Remove(x)`: the first element equal to `x` is dropped; nothing happens if there is none. */
  function RemoveFirst<T(==)>(s: seq<T>, x: T): (r: seq<T>)
    ensures |r| == if x in s then |s| - 1 else |s|
  {
    if s == [] then []
    else if s[0] == x then s[1..]
    else [s[0]] + RemoveFirst(s[1..], x)
  }

  /** Every pair of elements, taken in sequence order, is related by `related`. */
  ghost predicate Pairwise<T>(related: (T, T) -> bool, s: seq<T>)
  {
    forall i, j :: 0 <= i < j < |s| ==> related(s[i], s[j])
  }

  lemma {:induction false} WithoutExcludedAppend<T>(isExcluded: T -> bool, a: seq<T>, b: seq<T>)
    ensures WithoutExcluded(isExcluded, a + b) == WithoutExcluded(isExcluded, a) + WithoutExcluded(isExcluded, b)
  {
    if a != [] {
      assert (a + b)[1..] == a[1..] + b;
      WithoutExcludedAppend(isExcluded, a[1..], b);
    } else {
      assert a + b == b;
    }
  }

  lemma {:induction false} OnlyExcludedAppend<T>(isExcluded: T -> bool, a: seq<T>, b: seq<T>)
    ensures OnlyExcluded(isExcluded, a + b) == OnlyExcluded(isExcluded, a) + OnlyExcluded(isExcluded, b)
  {
    if a != [] {
      assert (a + b)[1..] == a[1..] + b;
      OnlyExcludedAppend(isExcluded, a[1..], b);
    } else {
      assert a + b == b;
    }
  }

  /** An element survives exactly when it was present and is not excluded. */
  lemma {:induction false} WithoutExcludedMembership<T>(isExcluded: T -> bool, s: seq<T>, x: T)
    ensures x in WithoutExcluded(isExcluded, s) <==> x in s && !isExcluded(x)
  {
    if s != [] {
      WithoutExcludedMembership(isExcluded, s[1..], x);
      assert s == [s[0]] + s[1..];
    }
  }

  /** An element is collected exactly when it was present and is excluded. */
  lemma {:induction false} OnlyExcludedMembership<T>(isExcluded: T -> bool, s: seq<T>, x: T)
    ensures x in OnlyExcluded(isExcluded, s) <==> x in s && isExcluded(x)
  {
    if s != [] {
      OnlyExcludedMembership(isExcluded, s[1..], x);
      assert s == [s[0]] + s[1..];
    }
  }

  /** With nothing to collect, filtering changes nothing. */
  lemma {:induction false} NothingExcluded<T>(isExcluded: T -> bool, s: seq<T>)
    requires OnlyExcluded(isExcluded, s) == []
    ensures WithoutExcluded(isExcluded, s) == s
  {
    if s != [] {
      NothingExcluded(isExcluded, s[1..]);
      assert s == [s[0]] + s[1..];
    }
  }

  lemma {:induction false} RemoveFirstAbsent<T>(s: seq<T>, x: T)
    requires x !in s
    ensures RemoveFirst(s, x) == s
  {
    if s != [] {
      assert s[0] != x && x !in s[1..];
      RemoveFirstAbsent(s[1..], x);
      assert s == [s[0]] + s[1..];
    }
  }

  lemma {:induction false} RemoveFirstAfter<T>(a: seq<T>, x: T, b: seq<T>)
    requires x !in a
    ensures RemoveFirst(a + [x] + b, x) == a + b
  {
    if a == [] {
      assert a + [x] + b == [x] + b;
    } else {
      var s := a + [x] + b;
      var rest := a[1..] + [x] + b;
      assert s == [a[0]] + rest;
      RemoveFirstAfter(a[1..], x, b);
      assert a + b == [a[0]] + (a[1..] + b);
    }
  }

  lemma OnlyExcludedFrom<T>(isExcluded: T -> bool, s: seq<T>, j: nat)
    requires j < |s|
    ensures OnlyExcluded(isExcluded, s[j..]) == (if isExcluded(s[j]) then [s[j]] else []) + OnlyExcluded(isExcluded, s[j + 1..])
  {
    assert s[j..][0] == s[j] && s[j..][1..] == s[j + 1..];
  }

  lemma WithoutExcludedUpTo<T>(isExcluded: T -> bool, s: seq<T>, j: nat)
    requires j < |s|
    ensures WithoutExcluded(isExcluded, s[..j + 1]) == WithoutExcluded(isExcluded, s[..j]) + (if isExcluded(s[j]) then [] else [s[j]])
  {
    assert s[..j + 1] == s[..j] + [s[j]];
    WithoutExcludedAppend(isExcluded, s[..j], [s[j]]);
    assert [s[j]][1..] == [];
  }

  /** When the next untouched element is excluded, removing it extends the filtered prefix by one position. */
  lemma RemoveExcludedHere<T>(isExcluded: T -> bool, orig: seq<T>, j: nat)
    requires j < |orig| && isExcluded(orig[j])
    ensures RemoveFirst(WithoutExcluded(isExcluded, orig[..j]) + orig[j..], orig[j])
         == WithoutExcluded(isExcluded, orig[..j + 1]) + orig[j + 1..]
  {
    var done := WithoutExcluded(isExcluded, orig[..j]);
    WithoutExcludedUpTo(isExcluded, orig, j);
    assert done + orig[j..] == done + [orig[j]] + orig[j + 1..] by {
      assert orig[j..] == [orig[j]] + orig[j + 1..];
    }
    assert orig[j] !in done by {
      WithoutExcludedMembership(isExcluded, orig[..j], orig[j]);
    }
    RemoveFirstAfter(done, orig[j], orig[j + 1..]);
  }

  /** When the next untouched element is kept, the filtered prefix can be extended over it for free. */
  lemma KeepHere<T>(isExcluded: T -> bool, orig: seq<T>, j: nat)
    requires j < |orig| && !isExcluded(orig[j])
    ensures WithoutExcluded(isExcluded, orig[..j]) + orig[j..] == WithoutExcluded(isExcluded, orig[..j + 1]) + orig[j + 1..]
  {
    WithoutExcludedUpTo(isExcluded, orig, j);
    assert orig[j..] == [orig[j]] + orig[j + 1..];
  }

  /**
    One step of "collect the excluded elements, then remove each": if `orig[..j]`
    has been filtered already and `orig[j..]` is untouched, removing the next
    collected element filters `orig` up to position `k`, just past that element.
   */
  lemma {:induction false} RemoveNextExcluded<T>(isExcluded: T -> bool, orig: seq<T>, j: nat) returns (k: nat)
    requires j <= |orig| && OnlyExcluded(isExcluded, orig[j..]) != []
    ensures j < k <= |orig|
    ensures RemoveFirst(WithoutExcluded(isExcluded, orig[..j]) + orig[j..], OnlyExcluded(isExcluded, orig[j..])[0])
         == WithoutExcluded(isExcluded, orig[..k]) + orig[k..]
    ensures OnlyExcluded(isExcluded, orig[j..])[1..] == OnlyExcluded(isExcluded, orig[k..])
    decreases |orig| - j
  {
    OnlyExcludedFrom(isExcluded, orig, j);
    if isExcluded(orig[j]) {
      RemoveExcludedHere(isExcluded, orig, j);
      k := j + 1;
    } else {
      KeepHere(isExcluded, orig, j);
      k := RemoveNextExcluded(isExcluded, orig, j + 1);
    }
  }

  /** Filtering keeps a pairwise relation: the survivors keep their relative order. */
  lemma {:induction false} PairwiseWithoutExcluded<T>(related: (T, T) -> bool, isExcluded: T -> bool, s: seq<T>)
    requires Pairwise(related, s)
    ensures Pairwise(related, WithoutExcluded(isExcluded, s))
  {
    if s != [] {
      var rest := WithoutExcluded(isExcluded, s[1..]);
      PairwiseWithoutExcluded(related, isExcluded, s[1..]);
      forall y | y in rest
        ensures related(s[0], y)
      {
        WithoutExcludedMembership(isExcluded, s[1..], y);
        var j :| 0 <= j < |s[1..]| && s[1..][j] == y;
        assert s[1 + j] == y;
      }
    }
  }

  /**
    `foreach (x in removals) list.Remove(x)`, where `removals` starts with
    `skipped` elements that are not in the list and goes on with the excluded
    elements of the list, collected in order: the list loses exactly its
    excluded elements.
   */
  method RemoveEach<T(==)>(s: seq<T>, removals: seq<T>, ghost isExcluded: T -> bool, ghost skipped: nat) returns (r: seq<T>)
    requires skipped <= |removals|
    requires forall q :: 0 <= q < skipped ==> removals[q] !in s
    requires removals[skipped..] == OnlyExcluded(isExcluded, s)
    ensures r == WithoutExcluded(isExcluded, s)
  {
    r := s;
    ghost var done := 0;
    for q := 0 to |removals|
      invariant done <= |s|
      invariant q <= skipped ==> done == 0 && r == s
      invariant skipped <= q ==> r == WithoutExcluded(isExcluded, s[..done]) + s[done..]
      invariant skipped <= q ==> removals[q..] == OnlyExcluded(isExcluded, s[done..])
    {
      if q < skipped {
        RemoveFirstAbsent(s, removals[q]);
        if q + 1 == skipped {
          assert s[..0] == [] && s[0..] == s;
        }
      } else {
        assert removals[q] == OnlyExcluded(isExcluded, s[done..])[0];
        assert removals[q + 1..] == OnlyExcluded(isExcluded, s[done..])[1..];
        done := RemoveNextExcluded(isExcluded, s, done);
      }
      r := RemoveFirst(r, removals[q]);
    }
    if skipped == |removals| {
      assert s[..0] == [] && s[0..] == s;
    }
    NothingExcluded(isExcluded, s[done..]);
    WithoutExcludedAppend(isExcluded, s[..done], s[done..]);
    assert s[..done] + s[done..] == s;
  }
}
