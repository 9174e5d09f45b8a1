/** Sequence vocabulary shared by the model: first occurrences, de-duplication
    in first-occurrence order (what a JavaScript `Set` or an insertion-ordered
    `Map` keeps), and occurrence counts. */
module Seqs {

  /** No element occurs twice. */
  predicate Distinct<T(==)>(s: seq<T>) {
    forall i, j :: 0 <= i < j < |s| ==> s[i] != s[j]
  }

  /** Index of the first occurrence of `x` in `s` (`s.indexOf(x)`). */
  function FirstIndex<T(==)>(s: seq<T>, x: T): (i: nat)
    requires x in s
    ensures i < |s| && s[i] == x
    ensures x !in s[..i]
  {
    if s[0] == x then 0
    else
      var j := FirstIndex(s[1..], x);
      assert s[..j + 1] == [s[0]] + s[1..][..j];
      1 + j
  }

  /** An element that does not occur before position `k` has its first occurrence at `k`. */
  lemma {:induction false} FirstIndexAt<T>(s: seq<T>, k: nat)
    requires k < |s| && s[k] !in s[..k]
    ensures FirstIndex(s, s[k]) == k
  {
    if k > 0 {
      assert s[0] == s[..k][0];
      assert s[1..][..k - 1] == s[..k][1..];
      FirstIndexAt(s[1..], k - 1);
    }
  }

  /** Appending never moves a first occurrence that is already there. */
  lemma {:induction false} FirstIndexAppend<T>(p: seq<T>, q: seq<T>, x: T)
    requires x in p
    ensures FirstIndex(p + q, x) == FirstIndex(p, x)
  {
    if p[0] != x {
      assert (p + q)[1..] == p[1..] + q;
      FirstIndexAppend(p[1..], q, x);
    }
  }

  /** The distinct elements of `s` in order of first occurrence: what
      `Array.from(new Set(s))` yields, and the key order of a `Map` that is
      filled by "insert if absent". */
  function Dedup<T(==,!new)>(s: seq<T>): (r: seq<T>)
    ensures forall x :: x in r <==> x in s
    ensures Distinct(r)
    ensures |r| <= |s|
  {
    if s == [] then []
    else
      var p := s[..|s| - 1];
      assert s == p + [s[|s| - 1]];
      var d := Dedup(p);
      if s[|s| - 1] in d then d else d + [s[|s| - 1]]
  }

  /** One more element: it is appended exactly when it is new. */
  lemma DedupSnoc<T(!new)>(s: seq<T>, x: T)
    ensures Dedup(s + [x]) == if x in s then Dedup(s) else Dedup(s) + [x]
  {
    assert (s + [x])[..|s|] == s;
  }

  /** `Dedup` lists the distinct elements by increasing index of first occurrence. */
  lemma {:induction false} DedupFirstOccurrenceOrder<T(!new)>(s: seq<T>, i: nat, j: nat)
    requires i < j < |Dedup(s)|
    ensures FirstIndex(s, Dedup(s)[i]) < FirstIndex(s, Dedup(s)[j])
  {
    var p, x := s[..|s| - 1], s[|s| - 1];
    assert s == p + [x];
    DedupSnoc(p, x);
    var d := Dedup(p);
    if x in p {
      DedupFirstOccurrenceOrder(p, i, j);
      FirstIndexAppend(p, [x], d[i]);
      FirstIndexAppend(p, [x], d[j]);
    } else if j < |d| {
      DedupFirstOccurrenceOrder(p, i, j);
      FirstIndexAppend(p, [x], d[i]);
      FirstIndexAppend(p, [x], d[j]);
    } else {
      FirstIndexAppend(p, [x], d[i]);
      FirstIndexAt(s, |p|);
    }
  }

  /** The first element of a non-empty sequence comes first after de-duplication. */
  lemma {:induction false} DedupHead<T(!new)>(s: seq<T>)
    requires |s| > 0
    ensures |Dedup(s)| > 0 && Dedup(s)[0] == s[0]
  {
    var p, x := s[..|s| - 1], s[|s| - 1];
    assert s == p + [x];
    DedupSnoc(p, x);
    if p != [] {
      DedupHead(p);
    }
  }

  /** Number of occurrences of `x` in `s`. */
  function Count<T(==)>(s: seq<T>, x: T): (n: nat)
    ensures n <= |s|
    ensures n > 0 <==> x in s
  {
    if s == [] then 0
    else
      var p := s[..|s| - 1];
      assert s == p + [s[|s| - 1]];
      Count(p, x) + (if s[|s| - 1] == x then 1 else 0)
  }

  lemma CountSnoc<T>(s: seq<T>, y: T, x: T)
    ensures Count(s + [y], x) == Count(s, x) + (if y == x then 1 else 0)
  {
    assert (s + [y])[..|s|] == s;
  }

  /** An element of a sequence without repetitions occurs exactly once. */
  lemma {:induction false} CountDistinct<T>(s: seq<T>, x: T)
    requires Distinct(s) && x in s
    ensures Count(s, x) == 1
  {
    var p := s[..|s| - 1];
    assert s == p + [s[|s| - 1]];
    CountSnoc(p, s[|s| - 1], x);
    if s[|s| - 1] == x {
      assert x !in p;
    } else {
      CountDistinct(p, x);
    }
  }

  /** Sum of the occurrence counts in `s` of each element of `keys`. */
  function SumCounts<T(==)>(s: seq<T>, keys: seq<T>): nat {
    if keys == [] then 0
    else SumCounts(s, keys[..|keys| - 1]) + Count(s, keys[|keys| - 1])
  }

  lemma {:induction false} SumCountsSnoc<T>(s: seq<T>, y: T, keys: seq<T>)
    ensures SumCounts(s + [y], keys) == SumCounts(s, keys) + Count(keys, y)
  {
    if keys != [] {
      var k := keys[|keys| - 1];
      SumCountsSnoc(s, y, keys[..|keys| - 1]);
      CountSnoc(s, y, k);
      assert keys == keys[..|keys| - 1] + [k];
      CountSnoc(keys[..|keys| - 1], k, y);
    }
  }

  /** Every element of `s` is counted once under its first occurrence: the
      counts over the de-duplicated keys add up to the length of `s`. */
  lemma {:induction false} CountsOverDedupSumToLength<T(!new)>(s: seq<T>)
    ensures SumCounts(s, Dedup(s)) == |s|
  {
    if s != [] {
      var p, x := s[..|s| - 1], s[|s| - 1];
      assert s == p + [x];
      CountsOverDedupSumToLength(p);
      DedupSnoc(p, x);
      SumCountsSnoc(p, x, Dedup(p));
      if x in p {
        CountDistinct(Dedup(p), x);
      } else {
        var d := Dedup(p);
        assert Dedup(s)[..|d|] == d;
        assert Count(d, x) == 0;
        assert Count(p, x) == 0;
        CountSnoc(p, x, x);
        SumCountsSnoc(p, x, d);
      }
    }
  }
}
