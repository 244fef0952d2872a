// Datatypes and sequence vocabulary shared by the other modules.
module Prelude {

  datatype Option<+T> = None | Some(value: T)

  datatype Result<+T> = Ok(value: T) | Err

  /** The first value when there is one, else the second. */
  function OrElse<T>(first: Option<T>, second: Option<T>): Option<T> {
    if first.Some? then first else second
  }

  predicate Distinct<T(==)>(s: seq<T>) {
    forall i, j | 0 <= i < j < |s| :: s[i] != s[j]
  }

  predicate Increasing(s: seq<int>) {
    forall i, j | 0 <= i < j < |s| :: s[i] < s[j]
  }

  /** The elements of `s` that satisfy `keep`, in order. */
  function Filter<T(!new)>(s: seq<T>, keep: T -> bool): (r: seq<T>)
    ensures forall x :: x in r <==> x in s && keep(x)
  {
    if s == [] then []
    else if keep(s[0]) then [s[0]] + Filter(s[1..], keep)
    else Filter(s[1..], keep)
  }

  function Map<S, T>(s: seq<S>, f: S -> T): (r: seq<T>)
    ensures |r| == |s| && forall i | 0 <= i < |s| :: r[i] == f(s[i])
  {
    seq(|s|, i requires 0 <= i < |s| => f(s[i]))
  }

  lemma FilterAppend<T(!new)>(s: seq<T>, t: seq<T>, keep: T -> bool)
    ensures Filter(s + t, keep) == Filter(s, keep) + Filter(t, keep)
  {
    if s == [] {
      assert s + t == t;
    } else {
      FilterAppend(s[1..], t, keep);
      assert (s + t)[1..] == s[1..] + t;
    }
  }

  lemma {:induction false} FilterAdd<T(!new)>(s: seq<T>, x: T, keep: T -> bool)
    ensures Filter(s + [x], keep) == Filter(s, keep) + if keep(x) then [x] else []
  {
    FilterAppend(s, [x], keep);
    assert [x][1..] == [];
  }

  /** One loop step of a filter written as a left-to-right scan. */
  lemma FilterSnoc<T(!new)>(s: seq<T>, i: nat, keep: T -> bool)
    requires i < |s|
    ensures Filter(s[..i + 1], keep) == Filter(s[..i], keep) + if keep(s[i]) then [s[i]] else []
  {
    assert s[..i + 1] == s[..i] + [s[i]];
    FilterAppend(s[..i], [s[i]], keep);
  }

  lemma MapAppend<S, T>(s: seq<S>, t: seq<S>, f: S -> T)
    ensures Map(s + t, f) == Map(s, f) + Map(t, f)
  {
  }

  lemma {:induction false} IncreasingCounts(s: seq<int>, t: int)
    requires Increasing(s)
    ensures multiset(s)[t] == if t in s then 1 else 0
  {
    if s != [] {
      assert s == [s[0]] + s[1..] && Increasing(s[1..]);
      IncreasingCounts(s[1..], t);
      assert s[0] !in s[1..];
    }
  }

  function Concat<T>(parts: seq<seq<T>>): seq<T> {
    if parts == [] then [] else parts[0] + Concat(parts[1..])
  }

  lemma ConcatSnoc<T>(parts: seq<seq<T>>, last: seq<T>)
    ensures Concat(parts + [last]) == Concat(parts) + last
  {
    if parts == [] {
      assert Concat([last]) == last + Concat([last][1..]);
    } else {
      ConcatSnoc(parts[1..], last);
      assert (parts + [last])[1..] == parts[1..] + [last];
    }
  }

  lemma TakeOut<T>(s: seq<T>, x: T) returns (i: nat)
    requires x in multiset(s)
    ensures i < |s| && s[i] == x && multiset(s) == multiset(s[..i] + s[i + 1..]) + multiset{x}
  {
    i :| 0 <= i < |s| && s[i] == x;
    assert s == s[..i] + [x] + s[i + 1..];
  }

  lemma TakeOutFirst<T>(s: seq<T>, t: seq<T>) returns (i: nat)
    requires s != [] && multiset(s) == multiset(t)
    ensures i < |t| && t[i] == s[0] && multiset(s[1..]) == multiset(t[..i] + t[i + 1..])
  {
    assert s == [s[0]] + s[1..] && multiset(s) == multiset{s[0]} + multiset(s[1..]);
    i := TakeOut(t, s[0]);
    assert multiset(s[1..]) == multiset(s) - multiset{s[0]};
  }

  lemma MapTakeOut<S, T>(s: seq<S>, i: nat, f: S -> T)
    requires i < |s|
    ensures multiset(Map(s, f)) == multiset(Map(s[..i] + s[i + 1..], f)) + multiset{f(s[i])}
  {
    MapAppend(s[..i], s[i + 1..], f);
    assert Map(s, f) == Map(s[..i], f) + [f(s[i])] + Map(s[i + 1..], f);
  }

  lemma MapHead<S, T>(s: seq<S>, f: S -> T)
    requires s != []
    ensures multiset(Map(s, f)) == multiset(Map(s[1..], f)) + multiset{f(s[0])}
  {
    assert Map(s, f) == [f(s[0])] + Map(s[1..], f);
  }

  /** Permuting a sequence permutes its images. */
  lemma {:induction false} MapPermutes<S, T>(s: seq<S>, t: seq<S>, f: S -> T)
    requires multiset(s) == multiset(t)
    ensures multiset(Map(s, f)) == multiset(Map(t, f))
    decreases |s|
  {
    if s == [] {
      assert |t| == |multiset(t)|;
    } else {
      var i := TakeOutFirst(s, t);
      MapPermutes(s[1..], t[..i] + t[i + 1..], f);
      MapTakeOut(t, i, f);
      MapHead(s, f);
    }
  }

  /** A sequence splits, element by element, between two exclusive conditions. */
  lemma FilterUnion<T(!new)>(s: seq<T>, f: T -> bool, g: T -> bool, either: T -> bool)
    requires forall x | x in s :: (either(x) <==> f(x) || g(x)) && !(f(x) && g(x))
    ensures multiset(Filter(s, either)) == multiset(Filter(s, f)) + multiset(Filter(s, g))
  {
    if s != [] {
      FilterUnion(s[1..], f, g, either);
      assert s == [s[0]] + s[1..];
    }
  }

  lemma {:induction false} FilterCounts<T(!new)>(s: seq<T>, keep: T -> bool, x: T)
    ensures multiset(Filter(s, keep))[x] == if keep(x) then multiset(s)[x] else 0
  {
    if s != [] {
      FilterCounts(s[1..], keep, x);
      assert s == [s[0]] + s[1..];
    }
  }

  lemma FilterPermutes<T(!new)>(s: seq<T>, t: seq<T>, keep: T -> bool)
    requires multiset(s) == multiset(t)
    ensures multiset(Filter(s, keep)) == multiset(Filter(t, keep))
  {
    forall x
      ensures multiset(Filter(s, keep))[x] == multiset(Filter(t, keep))[x]
    {
      FilterCounts(s, keep, x);
      FilterCounts(t, keep, x);
    }
  }

  lemma FilterKeepsAll<T(!new)>(s: seq<T>, f: T -> bool)
    requires forall x | x in s :: f(x)
    ensures Filter(s, f) == s
  {
  }

  lemma FilterAgrees<T(!new)>(s: seq<T>, f: T -> bool, g: T -> bool)
    requires forall x | x in s :: f(x) == g(x)
    ensures Filter(s, f) == Filter(s, g)
  {
  }

  lemma FilterNone<T(!new)>(s: seq<T>, f: T -> bool)
    requires forall x | x in s :: !f(x)
    ensures Filter(s, f) == []
  {
  }

  // ----- sorting by a key; Go's sort.Slice may order equal keys either way

  predicate SortedBy<T(!new)>(s: seq<T>, key: T -> int) {
    forall i, j | 0 <= i < j < |s| :: key(s[i]) <= key(s[j])
  }

  function InsertBy<T(!new)>(x: T, s: seq<T>, key: T -> int): seq<T> {
    if s == [] || key(x) <= key(s[0]) then [x] + s else [s[0]] + InsertBy(x, s[1..], key)
  }

  lemma {:induction false} InsertByAdds<T(!new)>(x: T, s: seq<T>, key: T -> int)
    ensures multiset(InsertBy(x, s, key)) == multiset(s) + multiset{x}
  {
    if s != [] && key(x) > key(s[0]) {
      InsertByAdds(x, s[1..], key);
      assert s == [s[0]] + s[1..];
    }
  }

  lemma {:induction false} InsertByOrder<T(!new)>(x: T, s: seq<T>, key: T -> int)
    requires SortedBy(s, key)
    ensures SortedBy(InsertBy(x, s, key), key)
  {
    if s != [] && key(x) > key(s[0]) {
      var r := InsertBy(x, s[1..], key);
      InsertByOrder(x, s[1..], key);
      InsertByAdds(x, s[1..], key);
      forall i | 0 <= i < |r|
        ensures key(s[0]) <= key(r[i])
      {
        assert r[i] in multiset(r);
        assert r[i] == x || r[i] in s[1..];
      }
    }
  }

  function SortBy<T(!new)>(s: seq<T>, key: T -> int): (r: seq<T>)
    ensures SortedBy(r, key) && multiset(r) == multiset(s)
  {
    if s == [] then []
    else
      assert s == [s[0]] + s[1..];
      InsertByAdds(s[0], SortBy(s[1..], key), key);
      InsertByOrder(s[0], SortBy(s[1..], key), key);
      InsertBy(s[0], SortBy(s[1..], key), key)
  }
}
