/** A stable sort by a comparison, as `Array.prototype.sort` performs it
    (the language requires the sort to be stable). `leq(a, b)` stands for
    `compare(a, b) <= 0`. */
module Sorting {

  /** `leq` is total (hence reflexive) and transitive: a consistent
      comparator. */
  ghost predicate TotalPreorder<T(!new)>(leq: (T, T) -> bool) {
    && (forall a, b :: leq(a, b) || leq(b, a))
    && Transitive(leq)
  }

  ghost predicate Transitive<T(!new)>(leq: (T, T) -> bool) {
    forall a, b, c :: leq(a, b) && leq(b, c) ==> leq(a, c)
  }

  /** Every element is `leq` every later element. */
  ghost predicate SortedBy<T>(leq: (T, T) -> bool, s: seq<T>) {
    forall i, j :: 0 <= i < j < |s| ==> leq(s[i], s[j])
  }

  /** `a` and `b` compare equal: neither goes strictly before the other. */
  predicate Tied<T>(leq: (T, T) -> bool, a: T, b: T) {
    leq(a, b) && leq(b, a)
  }

  /** The elements of `s` that compare equal to `p`, in their order in `s`.
      A sort is stable when it keeps every such run as it was. */
  function TiedWith<T>(leq: (T, T) -> bool, s: seq<T>, p: T): seq<T> {
    if s == [] then []
    else (if Tied(leq, s[0], p) then [s[0]] else []) + TiedWith(leq, s[1..], p)
  }

  /** Puts `x` in front of the first element it is `leq`, so ahead of every
      element it ties with. */
  function Insert<T>(leq: (T, T) -> bool, x: T, s: seq<T>): (r: seq<T>)
    ensures multiset(r) == multiset(s) + multiset{x}
  {
    if s == [] then [x]
    else if leq(x, s[0]) then [x] + s
    else
      assert s == [s[0]] + s[1..];
      [s[0]] + Insert(leq, x, s[1..])
  }

  /** The sorted copy of `s`; the input itself is a value and stays as it
      was. */
  function Sort<T>(leq: (T, T) -> bool, s: seq<T>): (r: seq<T>)
    ensures multiset(r) == multiset(s)
  {
    if s == [] then []
    else
      assert s == [s[0]] + s[1..];
      Insert(leq, s[0], Sort(leq, s[1..]))
  }

  lemma {:induction false} InsertSorted<T(!new)>(leq: (T, T) -> bool, x: T, s: seq<T>)
    requires TotalPreorder(leq)
    requires SortedBy(leq, s)
    ensures SortedBy(leq, Insert(leq, x, s))
  {
    if s != [] && !leq(x, s[0]) {
      InsertSorted(leq, x, s[1..]);
      var r := Insert(leq, x, s[1..]);
      assert forall k :: 0 <= k < |r| ==> r[k] in multiset(s[1..]) + multiset{x};
      forall k | 0 <= k < |r|
        ensures leq(s[0], r[k])
      {
        assert r[k] in multiset(s[1..]) + multiset{x};
        if r[k] != x {
          assert r[k] in s[1..];
        }
      }
    }
  }

  /** With a consistent comparator the sorted copy is in order. */
  lemma {:induction false} SortIsSorted<T(!new)>(leq: (T, T) -> bool, s: seq<T>)
    requires TotalPreorder(leq)
    ensures SortedBy(leq, Sort(leq, s))
  {
    if s != [] {
      SortIsSorted(leq, s[1..]);
      InsertSorted(leq, s[0], Sort(leq, s[1..]));
    }
  }

  lemma TiedWithCons<T>(leq: (T, T) -> bool, a: T, s: seq<T>, p: T)
    ensures TiedWith(leq, [a] + s, p) == (if Tied(leq, a, p) then [a] else []) + TiedWith(leq, s, p)
  {
    assert ([a] + s)[1..] == s;
  }

  /** Inserting an element that does not tie with `p` leaves `p`'s run
      alone. */
  lemma {:induction false} InsertUntied<T>(leq: (T, T) -> bool, x: T, s: seq<T>, p: T)
    requires !Tied(leq, x, p)
    ensures TiedWith(leq, Insert(leq, x, s), p) == TiedWith(leq, s, p)
  {
    if s == [] {
    } else if leq(x, s[0]) {
      TiedWithCons(leq, x, s, p);
    } else {
      InsertUntied(leq, x, s[1..], p);
      TiedWithCons(leq, s[0], Insert(leq, x, s[1..]), p);
      TiedWithCons(leq, s[0], s[1..], p);
      assert [s[0]] + s[1..] == s;
    }
  }

  /** An element that ties with `p`, and is `leq` every element of `s` in
      `p`'s run, joins that run at its front. */
  lemma {:induction false} InsertTied<T>(leq: (T, T) -> bool, x: T, s: seq<T>, p: T)
    requires Tied(leq, x, p)
    requires forall k :: 0 <= k < |s| && Tied(leq, s[k], p) ==> leq(x, s[k])
    ensures TiedWith(leq, Insert(leq, x, s), p) == [x] + TiedWith(leq, s, p)
  {
    if s == [] {
    } else if leq(x, s[0]) {
      TiedWithCons(leq, x, s, p);
    } else {
      assert !Tied(leq, s[0], p);
      assert forall k :: 0 <= k < |s| - 1 ==> s[1..][k] == s[k + 1];
      InsertTied(leq, x, s[1..], p);
      TiedWithCons(leq, s[0], Insert(leq, x, s[1..]), p);
      TiedWithCons(leq, s[0], s[1..], p);
      assert [s[0]] + s[1..] == s;
    }
  }

  /** Stability: elements that compare equal keep their relative order. */
  lemma {:induction false} SortIsStable<T(!new)>(leq: (T, T) -> bool, s: seq<T>, p: T)
    requires TotalPreorder(leq)
    ensures TiedWith(leq, Sort(leq, s), p) == TiedWith(leq, s, p)
  {
    if s != [] {
      SortIsStable(leq, s[1..], p);
      var rest := Sort(leq, s[1..]);
      if Tied(leq, s[0], p) {
        forall k | 0 <= k < |rest| && Tied(leq, rest[k], p)
          ensures leq(s[0], rest[k])
        {
          assert leq(s[0], p) && leq(p, rest[k]);
        }
        InsertTied(leq, s[0], rest, p);
      } else {
        InsertUntied(leq, s[0], rest, p);
      }
      assert [s[0]] + s[1..] == s;
      TiedWithCons(leq, s[0], s[1..], p);
    }
  }

  /** A list already in order is its own sorted copy; in particular sorting
      twice gives the same order as sorting once. */
  lemma {:induction false} SortOfSorted<T(!new)>(leq: (T, T) -> bool, s: seq<T>)
    requires SortedBy(leq, s)
    ensures Sort(leq, s) == s
  {
    if s != [] {
      SortOfSorted(leq, s[1..]);
      if |s| > 1 {
        assert leq(s[0], s[1]);
        assert s == [s[0]] + s[1..];
      }
    }
  }

  lemma SortIsIdempotent<T(!new)>(leq: (T, T) -> bool, s: seq<T>)
    requires TotalPreorder(leq)
    ensures Sort(leq, Sort(leq, s)) == Sort(leq, s)
  {
    SortIsSorted(leq, s);
    SortOfSorted(leq, Sort(leq, s));
  }
}
