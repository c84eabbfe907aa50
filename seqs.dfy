/** Sequence helpers shared by the model: an option type, duplicate-freedom,
    the order-preserving filter behind LINQ's `Where`, and LINQ's `Except`. */
module Seqs {

  datatype Option<+T> = None | Some(value: T)

  /** No element occurs twice. */
  ghost predicate NoDup<T>(s: seq<T>) {
    forall i, j :: 0 <= i < j < |s| ==> s[i] != s[j]
  }

  /** Number of occurrences of `x` in `s`. */
  function Count<T(==)>(s: seq<T>, x: T): nat {
    if s == [] then 0 else (if s[0] == x then 1 else 0) + Count(s[1..], x)
  }

  /** LINQ `Where`: the elements of `s` that satisfy `p`, in their order. */
  function Filter<T>(s: seq<T>, p: T -> bool): (r: seq<T>)
    ensures |r| <= |s|
    ensures forall i :: 0 <= i < |r| ==> r[i] in s && p(r[i])
    ensures forall i :: 0 <= i < |s| && p(s[i]) ==> s[i] in r
  {
    if s == [] then [] else (if p(s[0]) then [s[0]] else []) + Filter(s[1..], p)
  }

  /** Filtering a concatenation filters each part and keeps them in order. */
  lemma {:induction false} FilterAppend<T>(a: seq<T>, b: seq<T>, p: T -> bool)
    ensures Filter(a + b, p) == Filter(a, p) + Filter(b, p)
  {
    if a == [] {
      assert a + b == b;
    } else {
      assert (a + b)[1..] == a[1..] + b;
      FilterAppend(a[1..], b, p);
    }
  }

  /** Each element passing the filter is kept as often as it occurs; the others never. */
  lemma {:induction false} FilterCount<T>(s: seq<T>, p: T -> bool, x: T)
    ensures Count(Filter(s, p), x) == if p(x) then Count(s, x) else 0
  {
    if s != [] {
      FilterCount(s[1..], p, x);
      var head := if p(s[0]) then [s[0]] else [];
      assert Filter(s, p) == head + Filter(s[1..], p);
      CountAppend(head, Filter(s[1..], p), x);
    }
  }

  lemma {:induction false} CountAppend<T>(a: seq<T>, b: seq<T>, x: T)
    ensures Count(a + b, x) == Count(a, x) + Count(b, x)
  {
    if a == [] {
      assert a + b == b;
    } else {
      assert (a + b)[1..] == a[1..] + b;
      CountAppend(a[1..], b, x);
    }
  }

  /** LINQ `Except` with the excluded elements already collected in a set:
      yields each element of `s` that is not excluded, once, in order of first
      occurrence (the set grows with every element yielded). */
  function ExceptFrom<T(==)>(s: seq<T>, excluded: set<T>): (r: seq<T>)
    ensures forall i :: 0 <= i < |r| ==> r[i] in s && r[i] !in excluded
    ensures forall i :: 0 <= i < |s| && s[i] !in excluded ==> s[i] in r
    ensures NoDup(r)
  {
    if s == [] then []
    else if s[0] in excluded then ExceptFrom(s[1..], excluded)
    else
      var rest := ExceptFrom(s[1..], excluded + {s[0]});
      assert forall j :: 0 <= j < |rest| ==> rest[j] != s[0] by {
        forall j | 0 <= j < |rest| ensures rest[j] != s[0] {
          assert rest[j] in rest;
        }
      }
      [s[0]] + rest
  }

  /** `first.Except(second)`. */
  function Except<T(==)>(first: seq<T>, second: seq<T>): (r: seq<T>)
    ensures forall i :: 0 <= i < |r| ==> r[i] in first && r[i] !in second
    ensures forall i :: 0 <= i < |first| && first[i] !in second ==> first[i] in r
    ensures NoDup(r)
  {
    ExceptFrom(first, set x | x in second)
  }

  /** Removing an excluded last element from a duplicate-free prefix that
      avoids the excluded set leaves exactly the prefix, in the same order. */
  lemma {:induction false} ExceptDropsLast<T>(t: seq<T>, a: T, excluded: set<T>)
    requires NoDup(t)
    requires a in excluded
    requires forall x :: x in t ==> x !in excluded
    ensures ExceptFrom(t + [a], excluded) == t
  {
    if t == [] {
      assert [a][1..] == [];
    } else {
      assert (t + [a])[1..] == t[1..] + [a];
      assert forall x :: x in t[1..] ==> x != t[0] by {
        forall x | x in t[1..] ensures x != t[0] {
          var j :| 0 <= j < |t[1..]| && t[1..][j] == x;
          assert t[j + 1] == x;
        }
      }
      assert NoDup(t[1..]) by {
        forall i, j | 0 <= i < j < |t[1..]| ensures t[1..][i] != t[1..][j] {
          assert t[i + 1] != t[j + 1];
        }
      }
      ExceptDropsLast(t[1..], a, excluded + {t[0]});
    }
  }

  lemma AppendAssoc<T>(a: seq<T>, b: seq<T>, c: seq<T>)
    ensures a + b + c == a + (b + c)
  {
    forall k | 0 <= k < |a| + |b| + |c| ensures (a + b + c)[k] == (a + (b + c))[k] {
      if k < |a| {
      } else if k < |a| + |b| {
        assert (b + c)[k - |a|] == b[k - |a|];
      } else {
        assert (b + c)[k - |a|] == c[k - |a| - |b|];
      }
    }
  }

  /** Index of the first occurrence of `x` in `s`, or `|s|` when absent. */
  function IndexOf<T(==)>(s: seq<T>, x: T): (k: nat)
    ensures k <= |s|
    ensures k < |s| <==> x in s
    ensures k < |s| ==> s[k] == x
    ensures forall j :: 0 <= j < k ==> s[j] != x
  {
    if s == [] then 0 else if s[0] == x then 0 else 1 + IndexOf(s[1..], x)
  }
}
