/** Sequence operations the launcher takes from LINQ and `List<T>`: `Where`,
    `Select`, `IndexOf`, `Remove`, and the "first key wins" de-duplication that
    both `Distinct(comparer)` and a `HashSet.Add`-guarded loop perform. */
module Seqs {

  /** `Where(p)`: the elements satisfying `p`, in their original order. */
  function Filter<T>(p: T -> bool, xs: seq<T>): (r: seq<T>)
    ensures |r| <= |xs|
  {
    if xs == [] then [] else (if p(xs[0]) then [xs[0]] else []) + Filter(p, xs[1..])
  }

  /** The filtered sequence holds exactly the elements of `xs` that satisfy `p`. */
  lemma {:induction false} FilterMembers<T>(p: T -> bool, xs: seq<T>, x: T)
    ensures x in Filter(p, xs) <==> x in xs && p(x)
  {
    if xs != [] {
      FilterMembers(p, xs[1..], x);
      assert x in xs <==> x == xs[0] || x in xs[1..];
    }
  }

  lemma {:induction false} FilterAppend<T>(p: T -> bool, a: seq<T>, b: seq<T>)
    ensures Filter(p, a + b) == Filter(p, a) + Filter(p, b)
  {
    if a != [] {
      var h := if p(a[0]) then [a[0]] else [];
      assert (a + b)[0] == a[0] && (a + b)[1..] == a[1..] + b;
      assert Filter(p, a + b) == h + Filter(p, a[1..] + b);
      FilterAppend(p, a[1..], b);
    } else {
      assert a + b == b;
    }
  }

  /** Filtering drops something exactly when some element fails `p`. */
  lemma {:induction false} FilterShrinks<T>(p: T -> bool, xs: seq<T>)
    ensures |Filter(p, xs)| < |xs| <==> exists i :: 0 <= i < |xs| && !p(xs[i])
    ensures |Filter(p, xs)| == |xs| ==> Filter(p, xs) == xs
  {
    if xs != [] {
      FilterShrinks(p, xs[1..]);
      if exists i :: 0 <= i < |xs[1..]| && !p(xs[1..][i]) {
        var i :| 0 <= i < |xs[1..]| && !p(xs[1..][i]);
        assert xs[i + 1] == xs[1..][i];
      }
      if exists i :: 0 <= i < |xs| && !p(xs[i]) {
        var i :| 0 <= i < |xs| && !p(xs[i]);
        if i > 0 {
          assert xs[1..][i - 1] == xs[i];
        }
      }
    }
  }

  /** `Select(f)`. */
  function Map<T, U>(f: T -> U, xs: seq<T>): (r: seq<U>)
    ensures |r| == |xs| && forall i :: 0 <= i < |xs| ==> r[i] == f(xs[i])
  {
    seq(|xs|, i requires 0 <= i < |xs| => f(xs[i]))
  }

  lemma MapAppend<T, U>(f: T -> U, a: seq<T>, b: seq<T>)
    ensures Map(f, a + b) == Map(f, a) + Map(f, b)
  {
  }

  lemma MapAfterCons<T, U>(f: T -> U, pre: seq<U>, x: T, xs: seq<T>)
    ensures pre + Map(f, [x] + xs) == (pre + [f(x)]) + Map(f, xs)
  {
    MapAppend(f, [x], xs);
  }

  /** `IndexOf(x)` for an element known to occur: the position of its first occurrence. */
  function IndexOf<T(==)>(xs: seq<T>, x: T): (i: nat)
    requires x in xs
    ensures i < |xs| && xs[i] == x && x !in xs[..i]
  {
    if xs[0] == x then 0 else 1 + IndexOf(xs[1..], x)
  }

  /** `List<T>.Remove(x)`: drops the first element equal to `x`, if any, and
      keeps everything else in order. */
  function RemoveFirst<T(==)>(xs: seq<T>, x: T): seq<T>
  {
    if xs == [] then []
    else if xs[0] == x then xs[1..]
    else [xs[0]] + RemoveFirst(xs[1..], x)
  }

  /** An absent `x` leaves the list alone; a present one costs it one element. */
  lemma {:induction false} RemoveFirstLength<T>(xs: seq<T>, x: T)
    ensures x !in xs ==> RemoveFirst(xs, x) == xs
    ensures x in xs ==> |RemoveFirst(xs, x)| == |xs| - 1
  {
    if xs != [] && xs[0] != x {
      RemoveFirstLength(xs[1..], x);
      assert x in xs ==> x in xs[1..];
      assert x !in xs ==> xs == [xs[0]] + xs[1..];
    }
  }

  /** Removing `x` just after an `x`-free prefix splices it out there. */
  lemma {:induction false} RemoveFirstAfter<T>(pre: seq<T>, x: T, post: seq<T>)
    requires x !in pre
    ensures RemoveFirst(pre + [x] + post, x) == pre + post
  {
    if pre == [] {
      assert pre + [x] + post == [x] + post;
    } else {
      var ys := pre[1..] + [x] + post;
      assert pre + [x] + post == [pre[0]] + ys;
      RemoveFirstPast(pre[0], ys, x);
      RemoveFirstAfter(pre[1..], x, post);
      assert pre + post == [pre[0]] + (pre[1..] + post);
    }
  }

  lemma RemoveFirstPast<T>(h: T, ys: seq<T>, x: T)
    requires h != x
    ensures RemoveFirst([h] + ys, x) == [h] + RemoveFirst(ys, x)
  {
    assert ([h] + ys)[1..] == ys;
  }

  /** `Remove(x)` splices out the first occurrence of `x`. */
  lemma RemoveFirstSplices<T>(xs: seq<T>, x: T)
    requires x in xs
    ensures RemoveFirst(xs, x) == xs[..IndexOf(xs, x)] + xs[IndexOf(xs, x) + 1..]
  {
    var i := IndexOf(xs, x);
    assert xs == xs[..i] + [x] + xs[i + 1..];
    RemoveFirstAfter(xs[..i], x, xs[i + 1..]);
  }

  /** Removing the first occurrence takes exactly one copy of `x` out of the multiset. */
  lemma {:induction false} RemoveFirstMultiset<T>(xs: seq<T>, x: T)
    ensures multiset(RemoveFirst(xs, x)) == multiset(xs) - multiset{x}
  {
    if xs != [] {
      assert xs == [xs[0]] + xs[1..];
      if xs[0] != x {
        RemoveFirstMultiset(xs[1..], x);
        assert RemoveFirst(xs, x) == [xs[0]] + RemoveFirst(xs[1..], x);
      }
    }
  }

  /** The `HashSet.Add` idiom: walk `xs`, keep an element when its key is not yet
      seen, and mark its key as seen. `seen` holds the keys known beforehand. */
  function Keep<T>(xs: seq<T>, key: T -> string, seen: set<string>): seq<T>
  {
    if xs == [] then []
    else if key(xs[0]) in seen then Keep(xs[1..], key, seen)
    else [xs[0]] + Keep(xs[1..], key, seen + {key(xs[0])})
  }

  /** Position `i` holds the first occurrence of its key, and that key was not
      known beforehand. */
  predicate IsFirst<T>(xs: seq<T>, key: T -> string, seen: set<string>, i: int)
    requires 0 <= i < |xs|
  {
    key(xs[i]) !in seen && forall j :: 0 <= j < i ==> key(xs[j]) != key(xs[i])
  }

  /** The elements at first-occurrence positions from `i` on, in order: an
      index-based reference for `Keep` that needs no running set. */
  function Firsts<T>(xs: seq<T>, key: T -> string, seen: set<string>, i: nat): seq<T>
    requires i <= |xs|
    decreases |xs| - i
  {
    if i == |xs| then []
    else (if IsFirst(xs, key, seen, i) then [xs[i]] else []) + Firsts(xs, key, seen, i + 1)
  }

  lemma {:induction false} FirstsShift<T>(xs: seq<T>, key: T -> string, seen: set<string>, i: nat)
    requires 0 < |xs| && i < |xs|
    ensures Firsts(xs, key, seen, i + 1) == Firsts(xs[1..], key, seen + {key(xs[0])}, i)
    decreases |xs| - i
  {
    if i + 1 < |xs| {
      IsFirstShift(xs, key, seen, i);
      FirstsShift(xs, key, seen, i + 1);
    }
  }

  /** Dropping the head and adding its key to `seen` keeps first occurrences. */
  lemma IsFirstShift<T>(xs: seq<T>, key: T -> string, seen: set<string>, i: nat)
    requires i + 1 < |xs|
    ensures IsFirst(xs, key, seen, i + 1) <==> IsFirst(xs[1..], key, seen + {key(xs[0])}, i)
  {
    var seen' := seen + {key(xs[0])};
    assert xs[i + 1] == xs[1..][i];
    forall j | 0 <= j < i
      ensures xs[1..][j] == xs[j + 1]
    {
    }
    if IsFirst(xs[1..], key, seen', i) {
      forall j | 0 <= j < i + 1
        ensures key(xs[j]) != key(xs[i + 1])
      {
        if j > 0 {
          assert xs[j] == xs[1..][j - 1];
        }
      }
    }
  }

  /** The running-set walk and the index-based reference agree. */
  lemma {:induction false} KeepIsFirsts<T>(xs: seq<T>, key: T -> string, seen: set<string>)
    ensures Keep(xs, key, seen) == Firsts(xs, key, seen, 0)
    decreases |xs|
  {
    if xs != [] {
      var k := key(xs[0]);
      FirstsShift(xs, key, seen, 0);
      KeepIsFirsts(xs[1..], key, seen + {k});
      if k in seen {
        assert seen + {k} == seen;
      }
    }
  }

  /** No element of `r` carries a key from `seen`. */
  predicate NoneSeen<T>(r: seq<T>, key: T -> string, seen: set<string>) {
    forall k :: 0 <= k < |r| ==> key(r[k]) !in seen
  }

  /** No two elements of `r` carry the same key. */
  predicate DistinctKeys<T>(r: seq<T>, key: T -> string) {
    forall k, l :: 0 <= k < l < |r| ==> key(r[k]) != key(r[l])
  }

  /** Every element of `r` is an element of `xs`. */
  ghost predicate Within<T>(r: seq<T>, xs: seq<T>) {
    forall k :: 0 <= k < |r| ==> exists i :: 0 <= i < |xs| && xs[i] == r[k]
  }

  /** Every key of `xs` is in `seen` or carried by an element of `r`. */
  predicate CoversKeys<T>(xs: seq<T>, r: seq<T>, key: T -> string, seen: set<string>) {
    forall i :: 0 <= i < |xs| ==> key(xs[i]) in seen || exists k :: 0 <= k < |r| && key(r[k]) == key(xs[i])
  }

  /** `Keep` keeps only elements of `xs` whose key was not known beforehand. */
  lemma {:induction false} KeepSound<T>(xs: seq<T>, key: T -> string, seen: set<string>)
    ensures |Keep(xs, key, seen)| <= |xs|
    ensures NoneSeen(Keep(xs, key, seen), key, seen)
    ensures Within(Keep(xs, key, seen), xs)
    decreases |xs|
  {
    if xs != [] {
      var k0 := key(xs[0]);
      var seen' := if k0 in seen then seen else seen + {k0};
      KeepSound(xs[1..], key, seen');
      var rest := Keep(xs[1..], key, seen');
      var r := Keep(xs, key, seen);
      assert r == if k0 in seen then rest else [xs[0]] + rest;
      forall k | 0 <= k < |r|
        ensures key(r[k]) !in seen && exists i :: 0 <= i < |xs| && xs[i] == r[k]
      {
        if k0 in seen || k > 0 {
          var k' := if k0 in seen then k else k - 1;
          assert r[k] == rest[k'];
          var i :| 0 <= i < |xs[1..]| && xs[1..][i] == rest[k'];
          assert xs[i + 1] == r[k];
        } else {
          assert xs[0] == r[k];
        }
      }
    }
  }

  /** `Keep` never keeps two elements with the same key. */
  lemma {:induction false} KeepDistinct<T>(xs: seq<T>, key: T -> string, seen: set<string>)
    ensures DistinctKeys(Keep(xs, key, seen), key)
    decreases |xs|
  {
    if xs != [] {
      var k0 := key(xs[0]);
      if k0 in seen {
        KeepDistinct(xs[1..], key, seen);
      } else {
        var rest := Keep(xs[1..], key, seen + {k0});
        KeepDistinct(xs[1..], key, seen + {k0});
        KeepSound(xs[1..], key, seen + {k0});
        var r := Keep(xs, key, seen);
        assert r == [xs[0]] + rest;
        forall k, l | 0 <= k < l < |r|
          ensures key(r[k]) != key(r[l])
        {
          assert r[l] == rest[l - 1];
          if k > 0 {
            assert r[k] == rest[k - 1];
          }
        }
      }
    }
  }

  /** Every key of `xs` ends up either known beforehand or carried by a kept element. */
  lemma {:induction false} KeepComplete<T>(xs: seq<T>, key: T -> string, seen: set<string>)
    ensures CoversKeys(xs, Keep(xs, key, seen), key, seen)
    decreases |xs|
  {
    if xs != [] {
      var k0 := key(xs[0]);
      var seen' := if k0 in seen then seen else seen + {k0};
      KeepComplete(xs[1..], key, seen');
      var rest := Keep(xs[1..], key, seen');
      var r := Keep(xs, key, seen);
      assert r == if k0 in seen then rest else [xs[0]] + rest;
      forall i | 0 <= i < |xs|
        ensures key(xs[i]) in seen || exists k :: 0 <= k < |r| && key(r[k]) == key(xs[i])
      {
        if i == 0 {
          if k0 !in seen {
            assert key(r[0]) == key(xs[0]);
          }
        } else {
          assert xs[i] == xs[1..][i - 1];
          if key(xs[i]) !in seen {
            if k0 !in seen && key(xs[i]) == k0 {
              assert key(r[0]) == key(xs[i]);
            } else {
              var k :| 0 <= k < |rest| && key(rest[k]) == key(xs[i]);
              var k' := if k0 in seen then k else k + 1;
              assert r[k'] == rest[k];
            }
          }
        }
      }
    }
  }
}
