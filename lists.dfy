/**
 * Sequence and map operations the pool performs on its C# lists and on the engine's instance tables:
 * List.Remove (drop the first occurrence), the ids of a batch of fresh copies, and marking a batch
 * of fresh ids in a table.
 */
module Lists {

  /** No element occurs twice. */
  ghost predicate Distinct<T>(s: seq<T>)
  {
    s == [] || (s[0] !in s[1..] && Distinct(s[1..]))
  }

  /** The elements of a list, as a set. */
  function Elements<T>(s: seq<T>): (r: set<T>)
  {
    set x | x in s
  }

  /** List<T>.Remove(x): the list without the first occurrence of x; unchanged when x is absent. */
  function RemoveFirst<T(==)>(s: seq<T>, x: T): (r: seq<T>)
    ensures x !in s ==> r == s
    ensures x in s ==> |r| == |s| - 1
    ensures multiset(r) == multiset(s) - multiset{x}
  {
    if s == [] then []
    else if s[0] == x then
      assert s == [s[0]] + s[1..];
      s[1..]
    else
      assert s == [s[0]] + s[1..];
      [s[0]] + RemoveFirst(s[1..], x)
  }

  /** On a list without duplicates, Remove takes out every occurrence and leaves no duplicates. */
  lemma {:induction false} RemoveFirstOfDistinct<T>(s: seq<T>, x: T)
    requires Distinct(s)
    ensures x !in RemoveFirst(s, x)
    ensures Distinct(RemoveFirst(s, x))
    ensures forall y :: y in RemoveFirst(s, x) <==> y in s && y != x
  {
    if s != [] && s[0] != x {
      RemoveFirstOfDistinct(s[1..], x);
      assert RemoveFirst(s, x) == [s[0]] + RemoveFirst(s[1..], x);
      assert RemoveFirst(s, x)[1..] == RemoveFirst(s[1..], x);
    }
  }

  /** Appending an element that is not yet there keeps a list free of duplicates. */
  lemma {:induction false} DistinctAppend<T>(s: seq<T>, x: T)
    requires Distinct(s) && x !in s
    ensures Distinct(s + [x])
  {
    if s != [] {
      assert (s + [x])[1..] == s[1..] + [x];
      DistinctAppend(s[1..], x);
    } else {
      assert [x][1..] == [];
    }
  }

  /** Removing what was just appended (and was not there before) gives back the list. */
  lemma {:induction false} RemoveAppended<T>(s: seq<T>, x: T)
    requires x !in s
    ensures RemoveFirst(s + [x], x) == s
  {
    if s != [] {
      assert (s + [x])[1..] == s[1..] + [x];
      RemoveAppended(s[1..], x);
    }
  }

  /** A list without duplicates has as many elements as it has positions. */
  lemma {:induction false} DistinctCardinality<T>(s: seq<T>)
    requires Distinct(s)
    ensures |Elements(s)| == |s|
  {
    if s != [] {
      DistinctCardinality(s[1..]);
      assert s == [s[0]] + s[1..];
      assert Elements(s) == Elements(s[1..]) + {s[0]};
    }
  }

  /** The ids of `n` copies instantiated one after the other, starting with id `start`. */
  function Range(start: nat, n: nat): (r: seq<nat>)
    ensures |r| == n
  {
    if n == 0 then [] else Range(start, n - 1) + [start + n - 1]
  }

  /** The table `m` with each of the ids `start .. start + n - 1` set to `v`. */
  function Fill<V>(m: map<nat, V>, start: nat, n: nat, v: V): (r: map<nat, V>)
  {
    if n == 0 then m else Fill(m, start, n - 1, v)[start + n - 1 := v]
  }

  /** Range lists exactly the ids from `start` up to `start + n - 1`, in increasing order. */
  lemma {:induction false} InRange(start: nat, n: nat)
    ensures forall k :: 0 <= k < n ==> Range(start, n)[k] == start + k
    ensures forall x :: x in Range(start, n) <==> start <= x < start + n
  {
    if n > 0 {
      InRange(start, n - 1);
      assert forall k :: 0 <= k < n - 1 ==> Range(start, n)[k] == Range(start, n - 1)[k];
    }
  }

  /** Where Fill sets `v` and where it keeps the table's entry. */
  lemma {:induction false} FillAt<V>(m: map<nat, V>, start: nat, n: nat, v: V)
    ensures forall x :: x in Fill(m, start, n, v) <==> x in m || start <= x < start + n
    ensures forall x :: start <= x < start + n ==> Fill(m, start, n, v)[x] == v
    ensures forall x :: x in m && !(start <= x < start + n) ==> Fill(m, start, n, v)[x] == m[x]
  {
    if n > 0 {
      FillAt(m, start, n - 1, v);
    }
  }

  /** Filling `i` ids and then the next one fills `i + 1` ids. */
  lemma FillComposes<V>(m: map<nat, V>, start: nat, i: nat, v: V)
    ensures Fill(Fill(m, start, i, v), start + i, 1, v) == Fill(m, start, i + 1, v)
  {
  }

  lemma UpdateTwice<K, V>(m: map<K, V>, k: K, v1: V, v2: V)
    ensures m[k := v1][k := v2] == m[k := v2]
  {
  }
}
