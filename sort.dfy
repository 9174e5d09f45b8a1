/** Ordering of company lists: a stable sort by a priority that puts listed
    domestic companies first and companies without an identifier last. */
module CompanySort {
  import opened CompanyTypes

  /** `getPriority`: 0 for a listed domestic company, 1 for an unlisted
      domestic one, 2 for a foreign one, plus 3 when `companyId` is missing
      or empty. */
  function Priority(c: Company): (p: nat)
    ensures p <= 5
    ensures p >= 3 <==> !HasCompanyId(c)
  {
    var base := if c.isDomestic && c.isListed then 0
                else if c.isDomestic && !c.isListed then 1
                else 2;
    if HasCompanyId(c) then base else base + 3
  }

  /** Non-decreasing in priority. */
  predicate Sorted(s: seq<Company>) {
    forall i, j :: 0 <= i < j < |s| ==> Priority(s[i]) <= Priority(s[j])
  }

  /** The companies of priority `p`, in their order in `s`. */
  function WithPriority(s: seq<Company>, p: nat): seq<Company> {
    if s == [] then []
    else
      var last := s[|s| - 1];
      WithPriority(s[..|s| - 1], p) + (if Priority(last) == p then [last] else [])
  }

  lemma {:induction false} WithPriorityAppend(a: seq<Company>, b: seq<Company>, p: nat)
    ensures WithPriority(a + b, p) == WithPriority(a, p) + WithPriority(b, p)
  {
    if b == [] {
      assert a + b == a;
    } else {
      var b', y := b[..|b| - 1], b[|b| - 1];
      assert (a + b)[..|a + b| - 1] == a + b';
      WithPriorityAppend(a, b', p);
    }
  }

  /** Insertion of `x` into a sorted list as a stable comparison sort does it:
      `x` moves left past every element of strictly greater priority. The
      last element is `x` or the old last element. */
  function Insert(sorted: seq<Company>, x: Company): (r: seq<Company>)
    ensures |r| == |sorted| + 1
    ensures r[|r| - 1] == x || (|sorted| > 0 && r[|r| - 1] == sorted[|sorted| - 1])
  {
    if sorted == [] || Priority(sorted[|sorted| - 1]) <= Priority(x) then
      sorted + [x]
    else
      var init, last := sorted[..|sorted| - 1], sorted[|sorted| - 1];
      Insert(init, x) + [last]
  }

  /** Insertion keeps a list sorted. */
  lemma {:induction false} InsertSorted(sorted: seq<Company>, x: Company)
    requires Sorted(sorted)
    ensures Sorted(Insert(sorted, x))
  {
    var r := Insert(sorted, x);
    if sorted == [] || Priority(sorted[|sorted| - 1]) <= Priority(x) {
      assert r == sorted + [x];
      forall i, j | 0 <= i < j < |r|
        ensures Priority(r[i]) <= Priority(r[j])
      {
        if j == |sorted| && i < |sorted| - 1 {
          assert Priority(sorted[i]) <= Priority(sorted[|sorted| - 1]);
        }
      }
    } else {
      var init, last := sorted[..|sorted| - 1], sorted[|sorted| - 1];
      var r' := Insert(init, x);
      assert r == r' + [last];
      InsertSorted(init, x);
      assert Priority(r'[|r'| - 1]) <= Priority(last) by {
        if |init| > 0 {
          assert Priority(init[|init| - 1]) <= Priority(last);
        }
      }
      forall i, j | 0 <= i < j < |r|
        ensures Priority(r[i]) <= Priority(r[j])
      {
        if j == |r'| && i < |r'| - 1 {
          assert Priority(r'[i]) <= Priority(r'[|r'| - 1]);
        }
      }
    }
  }

  /** Insertion adds exactly `x`. */
  lemma {:induction false} InsertPermutes(sorted: seq<Company>, x: Company)
    ensures multiset(Insert(sorted, x)) == multiset(sorted) + multiset{x}
  {
    if sorted != [] && Priority(x) < Priority(sorted[|sorted| - 1]) {
      var init, last := sorted[..|sorted| - 1], sorted[|sorted| - 1];
      assert sorted == init + [last];
      InsertPermutes(init, x);
    }
  }

  /** Inserting `x` appends it to its own priority class and leaves the
      other classes alone. */
  lemma {:induction false} InsertWithPriority(sorted: seq<Company>, x: Company, p: nat)
    ensures WithPriority(Insert(sorted, x), p) ==
      WithPriority(sorted, p) + (if Priority(x) == p then [x] else [])
  {
    if sorted == [] || Priority(sorted[|sorted| - 1]) <= Priority(x) {
      assert Insert(sorted, x) == sorted + [x];
      WithPrioritySnoc(sorted, x, p);
    } else {
      var init, last := sorted[..|sorted| - 1], sorted[|sorted| - 1];
      assert Insert(sorted, x) == Insert(init, x) + [last];
      InsertWithPriority(init, x, p);
      ClassesPastGreater(init, last, x, Insert(init, x), p);
      assert sorted == init + [last];
    }
  }

  /** Moving `x` left past an element of greater priority changes no class. */
  lemma ClassesPastGreater(init: seq<Company>, last: Company, x: Company, r: seq<Company>, p: nat)
    requires Priority(x) < Priority(last)
    requires WithPriority(r, p) == WithPriority(init, p) + (if Priority(x) == p then [x] else [])
    ensures WithPriority(r + [last], p) ==
      WithPriority(init + [last], p) + (if Priority(x) == p then [x] else [])
  {
    var xs: seq<Company> := if Priority(x) == p then [x] else [];
    var ls: seq<Company> := if Priority(last) == p then [last] else [];
    calc {
      WithPriority(r + [last], p);
      { WithPrioritySnoc(r, last, p); }
      WithPriority(r, p) + ls;
      WithPriority(init, p) + xs + ls;
      { DisjointSingletonsCommute(WithPriority(init, p), xs, ls); }
      WithPriority(init, p) + ls + xs;
      { WithPrioritySnoc(init, last, p); }
      WithPriority(init + [last], p) + xs;
    }
  }

  lemma DisjointSingletonsCommute<T>(w: seq<T>, xs: seq<T>, ls: seq<T>)
    requires xs == [] || ls == []
    ensures w + xs + ls == w + ls + xs
  {
    if xs == [] {
      assert w + xs == w;
    } else {
      assert w + ls == w;
    }
  }

  lemma WithPrioritySnoc(s: seq<Company>, x: Company, p: nat)
    ensures WithPriority(s + [x], p) == WithPriority(s, p) + (if Priority(x) == p then [x] else [])
  {
    assert (s + [x])[..|s|] == s;
  }

  /** `[...companies].sort((a, b) => getPriority(a) - getPriority(b))`. The
      copy leaves the caller's list alone; the sort is stable, as section
      23.1.3.30 of ECMA-262 requires of `Array.prototype.sort`, and is
      modelled as insertion sort. The result is sorted, a permutation of the
      input, and every company with an identifier precedes every company
      without one. */
  function SortCompanies(companies: seq<Company>): (r: seq<Company>)
    ensures Sorted(r)
    ensures multiset(r) == multiset(companies)
    ensures forall i, j :: 0 <= i < j < |r| && !HasCompanyId(r[i]) ==> !HasCompanyId(r[j])
  {
    if companies == [] then []
    else
      var init, last := companies[..|companies| - 1], companies[|companies| - 1];
      assert companies == init + [last];
      InsertSorted(SortCompanies(init), last);
      InsertPermutes(SortCompanies(init), last);
      Insert(SortCompanies(init), last)
  }

  /** Stability: the companies of each priority keep their input order. */
  lemma {:induction false} SortCompaniesIsStable(companies: seq<Company>, p: nat)
    ensures WithPriority(SortCompanies(companies), p) == WithPriority(companies, p)
  {
    if companies != [] {
      var init := companies[..|companies| - 1];
      SortCompaniesIsStable(init, p);
      InsertWithPriority(SortCompanies(init), companies[|companies| - 1], p);
    }
  }

  /** The priority classes from `lo` upwards, concatenated in priority order. */
  function Buckets(s: seq<Company>, lo: nat): seq<Company>
    decreases 6 - lo
  {
    if lo > 5 then [] else WithPriority(s, lo) + Buckets(s, lo + 1)
  }

  lemma {:induction false} WithPriorityAbsent(s: seq<Company>, p: nat)
    requires forall i :: 0 <= i < |s| ==> Priority(s[i]) != p
    ensures WithPriority(s, p) == []
  {
    if s != [] {
      WithPriorityAbsent(s[..|s| - 1], p);
    }
  }

  lemma {:induction false} WithPriorityAll(s: seq<Company>, p: nat)
    requires forall i :: 0 <= i < |s| ==> Priority(s[i]) == p
    ensures WithPriority(s, p) == s
  {
    if s != [] {
      WithPriorityAll(s[..|s| - 1], p);
    }
  }

  /** The classes of a list depend only on its elements of the same or
      higher priority. */
  lemma {:induction false} BucketsSkipLower(a: seq<Company>, b: seq<Company>, lo: nat)
    requires forall i :: 0 <= i < |a| ==> Priority(a[i]) < lo
    ensures Buckets(a + b, lo) == Buckets(b, lo)
    decreases 6 - lo
  {
    if lo <= 5 {
      calc {
        Buckets(a + b, lo);
        WithPriority(a + b, lo) + Buckets(a + b, lo + 1);
        { WithPriorityAppend(a, b, lo); WithPriorityAbsent(a, lo); }
        [] + WithPriority(b, lo) + Buckets(a + b, lo + 1);
        { BucketsSkipLower(a, b, lo + 1); }
        [] + WithPriority(b, lo) + Buckets(b, lo + 1);
        Buckets(b, lo);
      }
    }
  }

  /** Splitting a sorted list after its leading elements of priority `lo`
      leaves a sorted rest of higher priority. */
  lemma SortedRest(s: seq<Company>, k: nat, lo: nat)
    requires Sorted(s)
    requires k <= |s|
    requires forall i :: 0 <= i < |s| ==> lo <= Priority(s[i])
    requires k < |s| ==> Priority(s[k]) != lo
    ensures Sorted(s[k..])
    ensures forall i :: 0 <= i < |s[k..]| ==> lo < Priority(s[k..][i])
  {
    forall i | k <= i < |s|
      ensures lo < Priority(s[i])
    {
      assert Priority(s[k]) <= Priority(s[i]);
    }
  }

  /** A block of priority `lo` followed by a list of higher priorities whose
      classes concatenate back to it. */
  lemma BucketsOfSplit(a: seq<Company>, b: seq<Company>, lo: nat)
    requires lo < 5
    requires forall i :: 0 <= i < |a| ==> Priority(a[i]) == lo
    requires forall i :: 0 <= i < |b| ==> lo < Priority(b[i])
    requires Buckets(b, lo + 1) == b
    ensures Buckets(a + b, lo) == a + b
  {
    WithPriorityAppend(a, b, lo);
    WithPriorityAll(a, lo);
    WithPriorityAbsent(b, lo);
    BucketsSkipLower(a, b, lo + 1);
    assert a + [] == a;
  }

  /** The length of the leading run of priority `lo`. */
  lemma LeadingRun(s: seq<Company>, lo: nat) returns (k: nat)
    ensures k <= |s|
    ensures forall i :: 0 <= i < k ==> Priority(s[i]) == lo
    ensures k < |s| ==> Priority(s[k]) != lo
  {
    k := 0;
    while k < |s| && Priority(s[k]) == lo
      invariant 0 <= k <= |s|
      invariant forall i :: 0 <= i < k ==> Priority(s[i]) == lo
    {
      k := k + 1;
    }
  }

  /** A sorted list is the concatenation of its priority classes. */
  lemma {:induction false} SortedIsBuckets(s: seq<Company>, lo: nat)
    requires Sorted(s)
    requires lo <= 5
    requires forall i :: 0 <= i < |s| ==> lo <= Priority(s[i])
    ensures Buckets(s, lo) == s
    decreases 6 - lo
  {
    if lo == 5 {
      WithPriorityAll(s, lo);
      assert Buckets(s, lo + 1) == [];
      assert s + [] == s;
    } else {
      var a, b := SplitAtRun(s, lo);
      SortedIsBuckets(b, lo + 1);
      BucketsOfSplit(a, b, lo);
    }
  }

  /** A sorted list of priorities `lo` and up splits into its run of `lo`
      and a sorted rest of higher priorities. */
  lemma SplitAtRun(s: seq<Company>, lo: nat) returns (a: seq<Company>, b: seq<Company>)
    requires Sorted(s)
    requires forall i :: 0 <= i < |s| ==> lo <= Priority(s[i])
    ensures s == a + b && |b| <= |s|
    ensures forall i :: 0 <= i < |a| ==> Priority(a[i]) == lo
    ensures Sorted(b)
    ensures forall i :: 0 <= i < |b| ==> lo < Priority(b[i])
  {
    var k := LeadingRun(s, lo);
    a, b := s[..k], s[k..];
    assert s == a + b;
    SortedRest(s, k, lo);
  }

  /** The six classes of a list, in priority order. */
  lemma BucketsExpand(s: seq<Company>)
    ensures Buckets(s, 0) ==
      WithPriority(s, 0) + WithPriority(s, 1) + WithPriority(s, 2)
      + WithPriority(s, 3) + WithPriority(s, 4) + WithPriority(s, 5)
  {
    assert Buckets(s, 6) == [];
    assert Buckets(s, 5) == WithPriority(s, 5);
    assert Buckets(s, 4) == WithPriority(s, 4) + WithPriority(s, 5);
    assert Buckets(s, 3) == WithPriority(s, 3) + Buckets(s, 4);
    assert Buckets(s, 2) == WithPriority(s, 2) + Buckets(s, 3);
    assert Buckets(s, 1) == WithPriority(s, 1) + Buckets(s, 2);
  }

  /** The result is fully determined by stability: it is the listed domestic
      companies, then the unlisted domestic ones, then the foreign ones, then
      the same three groups without an identifier, each group in input order.
      Any stable sort with this comparator returns exactly this list. */
  lemma SortCompaniesIsBucketOrder(companies: seq<Company>)
    ensures SortCompanies(companies) ==
      WithPriority(companies, 0) + WithPriority(companies, 1) + WithPriority(companies, 2)
      + WithPriority(companies, 3) + WithPriority(companies, 4) + WithPriority(companies, 5)
  {
    var r := SortCompanies(companies);
    SortedIsBuckets(r, 0);
    SortCompaniesIsStable(companies, 0);
    SortCompaniesIsStable(companies, 1);
    SortCompaniesIsStable(companies, 2);
    SortCompaniesIsStable(companies, 3);
    SortCompaniesIsStable(companies, 4);
    SortCompaniesIsStable(companies, 5);
    BucketsExpand(r);
  }
}
